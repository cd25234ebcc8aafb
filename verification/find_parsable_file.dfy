/**
 * Resolving a logical file name of a book (`GLOSSARY`, `README.md`, …) to
 * the parsable file that backs it: the caller's extension is dropped and
 * `basename + ext` is looked up in the file's directory for each supported
 * extension in priority order; the first file that exists and that the book
 * does not ignore wins, and its status is returned.
 *
 * The content filesystem, the ignore rules and Node's path functions are
 * collaborators, given here as function values. The search over the
 * extensions stands for `Promise.some` from the utilities, which is not part
 * of this model: it is taken to call the callback on the extensions one
 * after the other, in list order, and to stop at the first defined result.
 */
module ParsableFiles {
  import opened Wrappers

  /** `fs.findFile(dir, name)` gives the path found, if any; `fs.statFile(path)` its status. */
  datatype ContentFS<Stat> = ContentFS(
    findFile: (string, string) -> Option<string>,
    statFile: string -> Stat)

  datatype Book<Stat> = Book(fs: ContentFS<Stat>, isContentFileIgnored: string -> bool)

  /** Node's `path.extname`, `path.basename(p, ext)` and `path.dirname`. */
  datatype PathOps = PathOps(
    extname: string -> string,
    basename: (string, string) -> string,
    dirname: string -> string)

  /** A call made to the content filesystem. */
  datatype Call = FindFile(dir: string, name: string) | StatFile(path: string)

  /** The outcome of a search, and the filesystem calls it made, in order. */
  datatype Search<Stat> = Search(result: Option<Stat>, calls: seq<Call>)

  /**
   * `found && !book.isContentFileIgnored(found)`: a path was found (the empty
   * string is falsy, so it counts as none) and the book does not ignore it.
   */
  predicate Accepts<Stat>(book: Book<Stat>, found: Option<string>)
    ensures Accepts(book, found) ==> found.Some? && !book.isContentFileIgnored(found.value)
    ensures found.Some? && book.isContentFileIgnored(found.value) ==> !Accepts(book, found)
    ensures found.Some? && found.value != "" && !book.isContentFileIgnored(found.value) ==> Accepts(book, found)
    ensures found == Some("") ==> !Accepts(book, found)
  {
    found.Some? && found.value != "" && !book.isContentFileIgnored(found.value)
  }

  /** What the filesystem finds for `base + ext` in `dir`. */
  function Candidate<Stat>(book: Book<Stat>, dir: string, base: string, ext: string): Option<string> {
    book.fs.findFile(dir, base + ext)
  }

  predicate AcceptedAt<Stat>(book: Book<Stat>, dir: string, base: string, ext: string) {
    Accepts(book, Candidate(book, dir, base, ext))
  }

  /** `exts[k]` is accepted and no extension before it is. */
  predicate IsFirstAccepted<Stat>(book: Book<Stat>, dir: string, base: string, exts: seq<string>, k: int) {
    0 <= k < |exts| && AcceptedAt(book, dir, base, exts[k]) &&
    forall j :: 0 <= j < k ==> !AcceptedAt(book, dir, base, exts[j])
  }

  /** The lookups of `base + ext` in `dir`, one per extension, in order. */
  function Probes(dir: string, base: string, exts: seq<string>): seq<Call> {
    seq(|exts|, i requires 0 <= i < |exts| => FindFile(dir, base + exts[i]))
  }

  /**
   * The callback of `Promise.some` run over `exts` in order: the status of
   * the first accepted candidate, or `None` when no candidate is accepted.
   * The calls made are described by `SearchCalls`.
   */
  function SearchExtensions<Stat>(book: Book<Stat>, dir: string, base: string, exts: seq<string>): (s: Search<Stat>)
    ensures s.result.None? <==> forall i :: 0 <= i < |exts| ==> !AcceptedAt(book, dir, base, exts[i])
    ensures s.result.Some? ==> exists k ::
      IsFirstAccepted(book, dir, base, exts, k) &&
      s.result.value == book.fs.statFile(Candidate(book, dir, base, exts[k]).value)
    decreases |exts|
  {
    if exts == [] then Search(None, [])
    else
      var name := base + exts[0];
      var found := book.fs.findFile(dir, name);
      if Accepts(book, found) then
        assert IsFirstAccepted(book, dir, base, exts, 0);
        Search(Some(book.fs.statFile(found.value)), [FindFile(dir, name), StatFile(found.value)])
      else
        var rest := SearchExtensions(book, dir, base, exts[1..]);
        assert forall i :: 1 <= i < |exts| ==> exts[i] == exts[1..][i - 1];
        Search(rest.result, [FindFile(dir, name)] + rest.calls)
  }

  /**
   * The calls of a search whose first accepted extension is `exts[k]`: the
   * lookups of `exts[..k + 1]` in list order, then one `statFile` of the
   * accepted path.
   */
  lemma {:induction false} SearchCallsAccepted<Stat>(
    book: Book<Stat>, dir: string, base: string, exts: seq<string>, k: int)
    requires IsFirstAccepted(book, dir, base, exts, k)
    ensures SearchExtensions(book, dir, base, exts).calls ==
      Probes(dir, base, exts[..k + 1]) + [StatFile(Candidate(book, dir, base, exts[k]).value)]
    decreases k
  {
    if k == 0 {
      assert Probes(dir, base, exts[..1]) == [FindFile(dir, base + exts[0])];
    } else {
      var tail := exts[1..];
      assert forall j :: 0 <= j < k - 1 ==> tail[j] == exts[j + 1];
      assert IsFirstAccepted(book, dir, base, exts, k);
      assert !AcceptedAt(book, dir, base, exts[0]);
      assert IsFirstAccepted(book, dir, base, tail, k - 1);
      SearchCallsAccepted(book, dir, base, tail, k - 1);
      assert exts[..k + 1][1..] == tail[..k];
      assert Probes(dir, base, exts[..k + 1]) == [FindFile(dir, base + exts[0])] + Probes(dir, base, tail[..k]);
    }
  }

  /** When no extension is accepted, every extension is looked up, in order, and nothing else. */
  lemma {:induction false} SearchCallsNone<Stat>(book: Book<Stat>, dir: string, base: string, exts: seq<string>)
    requires forall i :: 0 <= i < |exts| ==> !AcceptedAt(book, dir, base, exts[i])
    ensures SearchExtensions(book, dir, base, exts).calls == Probes(dir, base, exts)
    decreases |exts|
  {
    if exts != [] {
      var tail := exts[1..];
      assert forall j :: 0 <= j < |tail| ==> tail[j] == exts[j + 1];
      assert !AcceptedAt(book, dir, base, exts[0]);
      SearchCallsNone(book, dir, base, tail);
      assert Probes(dir, base, exts) == [FindFile(dir, base + exts[0])] + Probes(dir, base, tail);
    }
  }

  /** The `i`-th lookup of a search is the lookup of `base + exts[i]` in `dir`. */
  lemma SearchLookups<Stat>(book: Book<Stat>, dir: string, base: string, exts: seq<string>)
    ensures var s := SearchExtensions(book, dir, base, exts);
      forall i :: 0 <= i < |s.calls| && s.calls[i].FindFile? ==>
        i < |exts| && s.calls[i] == FindFile(dir, base + exts[i])
  {
  }

  /** `findParsableFile(book, filename)` with the supported extensions `exts`, in priority order. */
  function FindParsableFile<Stat>(book: Book<Stat>, path: PathOps, exts: seq<string>, filename: string): (s: Search<Stat>)
    ensures var dir := path.dirname(filename);
            var base := path.basename(filename, path.extname(filename));
            (s.result.None? <==> forall i :: 0 <= i < |exts| ==> !AcceptedAt(book, dir, base, exts[i])) &&
            (s.result.Some? ==> exists k ::
              IsFirstAccepted(book, dir, base, exts, k) &&
              s.result.value == book.fs.statFile(Candidate(book, dir, base, exts[k]).value))
    ensures forall i :: 0 <= i < |s.calls| && s.calls[i].FindFile? ==>
      i < |exts| &&
      s.calls[i] == FindFile(path.dirname(filename), path.basename(filename, path.extname(filename)) + exts[i])
  {
    var ext := path.extname(filename);
    var base := path.basename(filename, ext);
    var dir := path.dirname(filename);
    SearchLookups(book, dir, base, exts);
    SearchExtensions(book, dir, base, exts)
  }

  // ----- Properties -----

  /**
   * The calls of `findParsableFile` for the split of `filename`: the lookups
   * in list order up to the first accepted extension, then one `statFile` of
   * its path; every lookup and no `statFile` when no extension is accepted.
   */
  lemma FindParsableFileCalls<Stat>(book: Book<Stat>, path: PathOps, exts: seq<string>, filename: string)
    ensures var dir := path.dirname(filename);
            var base := path.basename(filename, path.extname(filename));
            var s := FindParsableFile(book, path, exts, filename);
            (s.result.None? ==> s.calls == Probes(dir, base, exts)) &&
            (forall k :: IsFirstAccepted(book, dir, base, exts, k) ==>
              s.calls == Probes(dir, base, exts[..k + 1]) + [StatFile(Candidate(book, dir, base, exts[k]).value)])
  {
    var dir := path.dirname(filename);
    var base := path.basename(filename, path.extname(filename));
    var s := FindParsableFile(book, path, exts, filename);
    if s.result.None? {
      SearchCallsNone(book, dir, base, exts);
    }
    forall k | IsFirstAccepted(book, dir, base, exts, k)
      ensures s.calls == Probes(dir, base, exts[..k + 1]) + [StatFile(Candidate(book, dir, base, exts[k]).value)]
    {
      SearchCallsAccepted(book, dir, base, exts, k);
    }
  }

  /** With no extension to try, nothing is looked up and nothing is found. */
  lemma NoExtensionsNoResult<Stat>(book: Book<Stat>, path: PathOps, filename: string)
    ensures FindParsableFile(book, path, [], filename) == Search(None, [])
  {
  }

  /** `statFile` is called at most once, last, and only on an accepted path. */
  lemma StatOnlyAccepted<Stat>(book: Book<Stat>, dir: string, base: string, exts: seq<string>)
    ensures var s := SearchExtensions(book, dir, base, exts);
      forall i :: 0 <= i < |s.calls| && s.calls[i].StatFile? ==>
        i == |s.calls| - 1 && Accepts(book, Some(s.calls[i].path)) &&
        s.result == Some(book.fs.statFile(s.calls[i].path))
  {
  }

  /**
   * The result depends on the candidates only through whether each is
   * accepted and, for accepted ones, through the status of its path.
   */
  lemma SameAcceptanceSameResult<Stat>(
    b1: Book<Stat>, b2: Book<Stat>, dir: string, base: string, exts: seq<string>)
    requires forall e :: e in exts ==> AcceptedAt(b1, dir, base, e) == AcceptedAt(b2, dir, base, e)
    requires forall e :: e in exts && AcceptedAt(b1, dir, base, e) && AcceptedAt(b2, dir, base, e) ==>
      b1.fs.statFile(Candidate(b1, dir, base, e).value) == b2.fs.statFile(Candidate(b2, dir, base, e).value)
    ensures SearchExtensions(b1, dir, base, exts).result == SearchExtensions(b2, dir, base, exts).result
  {
  }

  /**
   * A candidate that is found but ignored gives the same result as one the
   * filesystem does not find.
   */
  lemma IgnoredIsMissing<Stat>(
    book: Book<Stat>, missing: Book<Stat>, dir: string, base: string, exts: seq<string>, ext: string)
    requires Candidate(book, dir, base, ext).Some?
    requires book.isContentFileIgnored(Candidate(book, dir, base, ext).value)
    requires Candidate(missing, dir, base, ext) == None
    requires forall d, n :: (d, n) != (dir, base + ext) ==> missing.fs.findFile(d, n) == book.fs.findFile(d, n)
    requires missing.isContentFileIgnored == book.isContentFileIgnored
    requires missing.fs.statFile == book.fs.statFile
    ensures SearchExtensions(book, dir, base, exts) == SearchExtensions(missing, dir, base, exts)
  {
  }

  /** An accepted extension guarantees a result, taken from it or from an earlier extension. */
  lemma EarlierExtensionWins<Stat>(book: Book<Stat>, dir: string, base: string, exts: seq<string>, i: nat)
    requires i < |exts| && AcceptedAt(book, dir, base, exts[i])
    ensures var s := SearchExtensions(book, dir, base, exts);
      s.result.Some? &&
      (exists k :: 0 <= k <= i && IsFirstAccepted(book, dir, base, exts, k) &&
        s.result.value == book.fs.statFile(Candidate(book, dir, base, exts[k]).value))
  {
  }
}
