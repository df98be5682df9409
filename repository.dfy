/**
 * `CargoRepository`: a dependency source addressed by a locator string.
 * Only `file://` locators are served; the file named by the rest of the
 * locator is read line by line and searched for the first record that
 * matches the queried package and version.
 *
 * Opening and reading the file is abstracted as a `FileSystem`: a map from
 * path to the lines Python yields. A path missing from the map stands for a
 * file that cannot be opened at all (it does not exist, is a directory, ...);
 * the source catches that and answers with an empty list, after printing a
 * diagnostic that is not modelled. A file that fails part-way through
 * reading (bytes that are not valid UTF-8) is mapped to the lines Python
 * yields before the error: the scan returns at the first decisive line, and
 * when none comes before the error the caught exception gives the empty
 * list, which is what `Lookup` of those lines yields as well.
 */
module Repository {
  import opened Text
  import opened Records

  const FileScheme: string := "file://"

  /** The readable files: path to lines. */
  type FileSystem = map<string, seq<string>>

  /** What reading `filepath` and searching it for the query yields. */
  function ReadAndLookup(fs: FileSystem, filepath: string, package: string, version: string): seq<string> {
    if filepath in fs then Lookup(fs[filepath], package, version) else []
  }

  /** What a repository whose (normalised) locator is `locator` answers. */
  function PackageDependencies(locator: string, fs: FileSystem, package: string, version: string): seq<string> {
    if StartsWith(locator, FileScheme) then ReadAndLookup(fs, locator[|FileScheme|..], package, version) else []
  }

  class CargoRepository {
    /** The locator with every trailing `/` removed. */
    const repoUrl: string

    constructor(repoUrl: string)
      ensures this.repoUrl == RStrip(repoUrl, '/')
    {
      this.repoUrl := RStrip(repoUrl, '/');
    }

    /** Direct dependencies of `package` (any version when `version` is empty). */
    method GetPackageDependencies(fs: FileSystem, package: string, version: string) returns (deps: seq<string>)
      ensures deps == PackageDependencies(repoUrl, fs, package, version)
      ensures !StartsWith(repoUrl, FileScheme) ==> deps == []
    {
      if StartsWith(repoUrl, FileScheme) {
        var filepath := repoUrl[|FileScheme|..];
        deps := ParseTestFile(fs, filepath, package, version);
      } else {
        deps := [];
      }
    }

    /**
     * Scans the file top to bottom and returns the cleaned dependency names
     * of the first matching record. A header with two or more `@` raises
     * while unpacking; the catch-all handler turns that into an empty result.
     */
    method ParseTestFile(fs: FileSystem, filepath: string, package: string, version: string) returns (deps: seq<string>)
      ensures deps == ReadAndLookup(fs, filepath, package, version)
    {
      if filepath !in fs {
        return [];
      }
      var lines := fs[filepath];
      var i := 0;
      while i < |lines|
        invariant 0 <= i <= |lines|
        invariant Scan(lines[..i], package, version) == NoMatch
      {
        ScanExtend(lines, i, package, version);
        var line := Strip(lines[i]);
        if line != "" && Contains(line, Arrow) {
          var parts := Split(line, Arrow);
          var pkgInfo := Strip(parts[0]);
          var header := ParseHeader(pkgInfo);
          assert RecordOf(lines[i]) == Some(Record(pkgInfo, parts[1]));
          if header.None? {
            return [];
          }
          if Matches(header.value, package, version) {
            deps := DependencyNames(parts[1]);
            return;
          }
          assert Examine(lines[i], package, version) == NoMatch;
        } else {
          assert RecordOf(lines[i]) == None;
        }
        i := i + 1;
      }
      assert lines[..i] == lines;
      return [];
    }
  }

  /**
   * A locator that is `file:` followed only by slashes (such as `file://`)
   * loses its slashes to normalisation and is then no `file://` locator,
   * so nothing is read.
   */
  lemma {:induction false} BareSchemeReadsNothing(slashes: string, fs: FileSystem, package: string, version: string)
    requires forall i :: 0 <= i < |slashes| ==> slashes[i] == '/'
    ensures RStrip("file:" + slashes, '/') == "file:"
    ensures PackageDependencies(RStrip("file:" + slashes, '/'), fs, package, version) == []
    decreases |slashes|
  {
    if slashes == [] {
      assert "file:" + slashes == "file:";
    } else {
      var shorter := slashes[..|slashes| - 1];
      assert "file:" + slashes == ("file:" + shorter) + ['/'];
      RStripAppend("file:" + shorter, '/');
      BareSchemeReadsNothing(shorter, fs, package, version);
    }
  }

  /** Trailing slashes on a locator never change the answer. */
  lemma TrailingSlashIgnored(url: string, fs: FileSystem, package: string, version: string)
    ensures PackageDependencies(RStrip(url + "/", '/'), fs, package, version) ==
            PackageDependencies(RStrip(url, '/'), fs, package, version)
  {
    RStripAppend(url, '/');
  }
}
