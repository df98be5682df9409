/**
 * The parameter checks of the first stage (`run_stage1`), applied to the
 * strings already extracted from the configuration: the package name and
 * the repository locator must be present, and a depth limit, when given,
 * must be a positive integer.
 *
 * Python's `int(s)` is abstracted as: surrounding whitespace is ignored,
 * then an optional `+` or `-`, then one or more ASCII digits. The whitespace
 * `int` skips is narrower than what `strip()` removes: only tab, line feed,
 * vertical tab, form feed, carriage return and space (`IsIntSpace`), not the
 * information separators 0x1C-0x1F. Underscores between digits and
 * non-ASCII digits or whitespace, which `int` also accepts, are not modelled.
 *
 * CPython also limits decimal conversions by default: `int(s)` raises when
 * the numeral has more than 4300 digits (the sign is not counted), and so
 * does `str(i)` when `i` would need more (`MaxStrDigits`).
 */
module Config {
  import opened Text

  predicate IsDigit(c: char) {
    '0' <= c <= '9'
  }

  predicate AllDigits(s: string) {
    forall k :: 0 <= k < |s| ==> IsDigit(s[k])
  }

  function DigitValue(c: char): (n: nat)
    requires IsDigit(c)
    ensures n < 10
  {
    (c as int) - ('0' as int)
  }

  /** The value of a decimal numeral, most significant digit first. */
  function NumeralValue(ds: string): nat
    requires AllDigits(ds)
  {
    if ds == [] then 0 else NumeralValue(ds[..|ds| - 1]) * 10 + DigitValue(ds[|ds| - 1])
  }

  /** The ASCII whitespace `int()` skips around a numeral: `\t\n\v\f\r` and space. */
  predicate IsIntSpace(c: char) {
    c == ' ' || ('\t' <= c <= '\r')
  }

  /** The text `int()` reads: `s` without the whitespace it skips at either end. */
  function IntText(s: string): (r: string)
    ensures r == [] || (!IsIntSpace(r[0]) && !IsIntSpace(r[|r| - 1]))
  {
    TrimEnd(TrimStart(s, IsIntSpace), IsIntSpace)
  }

  /** A text with no skippable whitespace at its ends is read as it is. */
  lemma IntTextUnchanged(t: string)
    requires t == [] || (!IsIntSpace(t[0]) && !IsIntSpace(t[|t| - 1]))
    ensures IntText(t) == t
  {
    assert TrimStart(t, IsIntSpace) == t;
    assert TrimEnd(t, IsIntSpace) == t;
  }

  /** CPython's default limit on the digits of a decimal conversion (`sys.get_int_max_str_digits()`). */
  const MaxStrDigits: nat := 4300

  /** `int(s)` for the accepted syntax; `None` stands for the `ValueError`. */
  function ParseInt(s: string): Option<int> {
    ParseLiteral(IntText(s))
  }

  /** An optionally signed decimal numeral within the digit limit, with nothing around it. */
  function ParseLiteral(t: string): Option<int> {
    var negative := t != [] && t[0] == '-';
    var digits := if t != [] && (t[0] == '-' || t[0] == '+') then t[1..] else t;
    if digits != [] && AllDigits(digits) && |digits| <= MaxStrDigits then
      var magnitude: int := NumeralValue(digits);
      Some(if negative then -magnitude else magnitude)
    else
      None
  }

  /** The decimal numeral of `n`, without leading zeros. */
  function Numeral(n: nat): (s: string)
    ensures s != [] && AllDigits(s)
    ensures NumeralValue(s) == n
  {
    var last := ['0' + ((n % 10) as char)];
    if n < 10 then
      assert last[..0] == [];
      last
    else
      var r := Numeral(n / 10) + last;
      assert r[..|r| - 1] == Numeral(n / 10);
      r
  }

  /** `str(i)`, for the integers whose digits are within `MaxStrDigits`. */
  function ShowInt(i: int): string {
    if i < 0 then "-" + Numeral(-i) else Numeral(i)
  }

  /**
   * `int(str(i)) == i`: the text of every integer that `str` can convert
   * (at most `MaxStrDigits` digits) is accepted and read back.
   */
  lemma ParseShowInt(i: int)
    requires |Numeral(if i < 0 then -i else i)| <= MaxStrDigits
    ensures ParseInt(ShowInt(i)) == Some(i)
  {
    var s := ShowInt(i);
    IntTextUnchanged(s);
    if i < 0 {
      assert s[1..] == Numeral(-i);
    }
  }

  /** Surrounding whitespace does not change what `int` reads. */
  lemma ParseIntIgnoresSpace(s: string)
    ensures ParseInt(s) == ParseInt(IntText(s))
  {
    IntTextUnchanged(IntText(s));
  }

  /** A numeral of more than `MaxStrDigits` digits is refused, whatever its value. */
  lemma TooManyDigits(t: string)
    requires AllDigits(t) && |t| > MaxStrDigits
    ensures ParseInt(t) == None
  {
    assert IsDigit(t[0]) && IsDigit(t[|t| - 1]);
    IntTextUnchanged(t);
    assert ParseLiteral(t) == None by {
      assert t[0] != '-' && t[0] != '+';
    }
  }

  /** A text that starts with neither a sign nor a digit is no numeral. */
  lemma NoLeadingDigit(t: string)
    requires t != [] && !IsDigit(t[0]) && t[0] != '-' && t[0] != '+'
    ensures ParseLiteral(t) == None
  {
  }

  /**
   * `int` does not skip the information separators that `strip()` removes:
   * `int("\x1c5")` raises, although `"\x1c5".strip()` is `"5"`; the same
   * holds for any digits after the separator.
   */
  lemma SeparatorNotSkipped(d: string)
    requires d != [] && AllDigits(d)
    ensures Strip([28 as char] + d) == d
    ensures ParseInt([28 as char] + d) == None
  {
    var s := [28 as char] + d;
    assert IsDigit(d[0]) && IsDigit(d[|d| - 1]);
    assert Strip(s) == d by {
      StripSurrounded([28 as char], d, []);
      assert [28 as char] + d + [] == s;
    }
    assert ParseInt(s) == None by {
      assert s[0] == 28 as char && s[|s| - 1] == d[|d| - 1];
      IntTextUnchanged(s);
      NoLeadingDigit(s);
    }
  }

  /** The configuration errors, in the order they are reported. */
  datatype ConfigError = MissingPackageName | MissingRepositoryUrl

  /** How the checks of the first stage end. */
  datatype Stage1Outcome =
    | InvalidConfig(errors: seq<ConfigError>)
    | DepthNotANumber
    | DepthNotPositive
    | Accepted

  /** The process status the stage returns: 0 on success, 1 on any failure. */
  function ExitStatus(o: Stage1Outcome): int {
    if o.Accepted? then 0 else 1
  }

  /** An empty depth means "no limit"; otherwise it must read as an integer above 0. */
  predicate ValidDepth(maxDepth: string) {
    maxDepth == "" || (ParseInt(maxDepth).Some? && ParseInt(maxDepth).value > 0)
  }

  /**
   * The checks on the extracted parameters. Both missing-parameter errors
   * are collected before anything is reported; the depth is checked only
   * when the name and the locator are present.
   */
  method ValidateStage1(packageName: string, repositoryUrl: string, maxDepth: string)
    returns (outcome: Stage1Outcome, status: int)
    ensures status == ExitStatus(outcome)
    ensures status == 0 <==> packageName != "" && repositoryUrl != "" && ValidDepth(maxDepth)
    ensures outcome.InvalidConfig? <==> packageName == "" || repositoryUrl == ""
    ensures outcome.InvalidConfig? ==>
      (MissingPackageName in outcome.errors <==> packageName == "") &&
      (MissingRepositoryUrl in outcome.errors <==> repositoryUrl == "") &&
      outcome.errors[0] == (if packageName == "" then MissingPackageName else MissingRepositoryUrl) &&
      |outcome.errors| <= 2 &&
      outcome.errors == (if packageName == "" then [MissingPackageName] else []) +
                        (if repositoryUrl == "" then [MissingRepositoryUrl] else [])
    ensures outcome == DepthNotANumber <==>
      packageName != "" && repositoryUrl != "" && maxDepth != "" && ParseInt(maxDepth).None?
    ensures outcome == DepthNotPositive <==>
      packageName != "" && repositoryUrl != "" && maxDepth != "" &&
      ParseInt(maxDepth).Some? && ParseInt(maxDepth).value <= 0
  {
    var errors: seq<ConfigError> := [];
    if packageName == "" {
      errors := errors + [MissingPackageName];
    }
    if repositoryUrl == "" {
      errors := errors + [MissingRepositoryUrl];
    }
    if errors != [] {
      return InvalidConfig(errors), 1;
    }
    if maxDepth != "" {
      var depth := ParseInt(maxDepth);
      if depth.None? {
        return DepthNotANumber, 1;
      }
      if depth.value <= 0 {
        return DepthNotPositive, 1;
      }
    }
    return Accepted, 0;
  }
}
