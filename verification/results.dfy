/**
  The result collector: after the downloader exits, the shared output
  directory is scanned once and an entry is kept as an output of this run
  when it is not a log, not a saved cookie file, and was modified less than
  an hour before the scan.
 */
module Results {
  import opened Wrappers
  import opened Numbers
  import opened Artifacts
  import opened Seqs

  /** Files modified less than this many seconds before the scan count as fresh. */
  const FreshnessWindow: int := 3600
  const LogSuffix: string := ".log"
  const CookiePrefix: string := "cookies_"

  /** A directory entry: its file name, whether it is a directory, and its
      modification time in whole seconds, or None when it vanished before it
      could be inspected. The scan does not look at the kind; only the
      archive does. */
  datatype Entry = Entry(name: string, isDir: bool, mtime: Option<int>)

  /** Python's `s.rfind(c)`: the last position of `c` in `s`, or -1. */
  function LastIndexOf(s: string, c: char): (i: int)
    ensures -1 <= i < |s|
  {
    if s == [] then -1
    else if s[|s| - 1] == c then |s| - 1
    else LastIndexOf(s[..|s| - 1], c)
  }

  /** `rfind` finds the last occurrence, and reports -1 exactly when there is none. */
  lemma {:induction false} LastIndexOfSpec(s: string, c: char)
    ensures LastIndexOf(s, c) == -1 <==> c !in s
    ensures LastIndexOf(s, c) >= 0 ==> s[LastIndexOf(s, c)] == c && c !in s[LastIndexOf(s, c) + 1..]
    decreases |s|
  {
    if s != [] {
      var p := s[..|s| - 1];
      assert s == p + [s[|s| - 1]];
      if s[|s| - 1] != c {
        LastIndexOfSpec(p, c);
        var i := LastIndexOf(p, c);
        if i >= 0 {
          assert s[i + 1..] == p[i + 1..] + [s[|s| - 1]];
        }
      }
    }
  }

  /** `PurePath.suffix`: from the last dot on, unless that dot starts the
      name or ends it. */
  function Suffix(name: string): string {
    var i := LastIndexOf(name, '.');
    if 0 < i < |name| - 1 then name[i..] else ""
  }

  /** A non-empty suffix is a dot and at least one more character, has no
      other dot, is a proper tail of the name, and starts at its last dot. */
  lemma SuffixSpec(name: string)
    ensures var r := Suffix(name);
      r == [] || (|r| >= 2 && r[0] == '.' && '.' !in r[1..] && |r| < |name| && r == name[|name| - |r|..])
  {
    LastIndexOfSpec(name, '.');
  }

  lemma {:induction false} LastIndexOfAppend(p: string, c: char, q: string)
    requires c !in q
    ensures LastIndexOf(p + [c] + q, c) == |p|
    decreases |q|
  {
    var s := p + [c] + q;
    if q != [] {
      assert s[..|s| - 1] == p + [c] + q[..|q| - 1];
      LastIndexOfAppend(p, c, q[..|q| - 1]);
    }
  }

  /** A name `stem.ext`, with a non-empty stem and a non-empty extension
      without dots, has suffix `.ext`. */
  lemma SuffixOfStemAndExt(stem: string, ext: string)
    requires stem != [] && ext != [] && '.' !in ext
    ensures Suffix(stem + "." + ext) == "." + ext
  {
    var name := stem + "." + ext;
    assert name == stem + ['.'] + ext;
    LastIndexOfAppend(stem, '.', ext);
    var i := LastIndexOf(name, '.');
    assert i == |stem| && 0 < i < |name| - 1;
    assert name[i..] == "." + ext;
  }

  /** The suffix of a `.log` file with a non-empty stem. */
  lemma LogSuffixOf(stem: string)
    requires stem != []
    ensures Suffix(stem + LogSuffix) == LogSuffix
  {
    assert stem + "." + "log" == stem + LogSuffix;
    SuffixOfStemAndExt(stem, "log");
  }

  /** The selection predicate of the scan loop. */
  predicate Keep(e: Entry, now: int) {
    && Suffix(e.name) != LogSuffix
    && !(CookiePrefix <= e.name)
    && e.mtime.Some?
    && now - e.mtime.value < FreshnessWindow
  }

  /** `a` is `b` with some elements dropped, order kept. */
  predicate IsSubsequence<T(==)>(a: seq<T>, b: seq<T>)
    decreases |b|
  {
    if a == [] then true
    else if b == [] then false
    else (a[0] == b[0] && IsSubsequence(a[1..], b[1..])) || IsSubsequence(a, b[1..])
  }

  /** The entries of the listing kept by the scan, in listing order. */
  function Select(listing: seq<Entry>, now: int): seq<Entry> {
    if listing == [] then []
    else if Keep(listing[0], now) then [listing[0]] + Select(listing[1..], now)
    else Select(listing[1..], now)
  }

  /**
    The selection is an order-preserving subsequence of the listing that
    holds every entry the predicate accepts and nothing else.
   */
  lemma {:induction false} SelectSpec(listing: seq<Entry>, now: int)
    ensures IsSubsequence(Select(listing, now), listing)
    ensures forall i :: 0 <= i < |Select(listing, now)| ==> Keep(Select(listing, now)[i], now)
    ensures forall i :: 0 <= i < |listing| && Keep(listing[i], now) ==> listing[i] in Select(listing, now)
    decreases |listing|
  {
    if listing != [] {
      var rest := Select(listing[1..], now);
      SelectSpec(listing[1..], now);
      assert forall i :: 1 <= i < |listing| ==> listing[i] == listing[1..][i - 1];
      if Keep(listing[0], now) {
        var r := [listing[0]] + rest;
        assert r[1..] == rest;
      }
    }
  }

  /** Duplicates are kept as such: an accepted entry appears in the results
      exactly as often as in the listing, a rejected one not at all. */
  lemma {:induction false} SelectCounts(listing: seq<Entry>, now: int, e: Entry)
    ensures multiset(Select(listing, now))[e] == if Keep(e, now) then multiset(listing)[e] else 0
    decreases |listing|
  {
    if listing != [] {
      SelectCounts(listing[1..], now, e);
      assert listing == [listing[0]] + listing[1..];
    }
  }

  lemma {:induction false} SelectAppend(listing: seq<Entry>, e: Entry, now: int)
    ensures Select(listing + [e], now) == Select(listing, now) + (if Keep(e, now) then [e] else [])
    decreases |listing|
  {
    if listing == [] {
      assert [] + [e] == [e];
      assert [e][1..] == [];
    } else {
      assert (listing + [e])[1..] == listing[1..] + [e];
      SelectAppend(listing[1..], e, now);
    }
  }

  /** The scan loop over the directory listing, in listing order. */
  method CollectResults(listing: seq<Entry>, now: int) returns (results: seq<Entry>)
    ensures results == Select(listing, now)
  {
    results := [];
    var i := 0;
    while i < |listing|
      invariant 0 <= i <= |listing|
      invariant results == Select(listing[..i], now)
    {
      var e := listing[i];
      PrefixSnoc(listing, i);
      SelectAppend(listing[..i], e, now);
      if Keep(e, now) {
        results := results + [e];
      } else {
        assert results + [] == results;
      }
      i := i + 1;
    }
    assert listing[..i] == listing;
  }

  /** Any `<stem>.log` is skipped, whatever its age. */
  lemma LogFilesSkipped(stem: string, isDir: bool, mtime: Option<int>, now: int)
    requires stem != []
    ensures !Keep(Entry(stem + ".log", isDir, mtime), now)
  {
    LogSuffixOf(stem);
  }

  /** This run's own log and cookie copy are never among the results. */
  lemma RunArtifactsNeverSelected(listing: seq<Entry>, now: int, runId: int, stamp: int)
    ensures forall e :: e in Select(listing, now) ==> e.name != LogFileName(runId) && e.name != CookieFileName(stamp)
  {
    var stem := "yt-dlp-" + IntToString(runId);
    assert LogFileName(runId) == stem + LogSuffix;
    LogSuffixOf(stem);
    assert CookiePrefix <= CookieFileName(stamp);
    var r := Select(listing, now);
    SelectSpec(listing, now);
    forall e | e in r
      ensures e.name != LogFileName(runId) && e.name != CookieFileName(stamp)
    {
      var i :| 0 <= i < |r| && r[i] == e;
      assert Keep(r[i], now);
    }
  }

  /** An archive from an earlier run is not excluded by name: it is picked up
      again whenever it is less than an hour old. */
  lemma ArchivesNotExcluded(runId: int, isDir: bool, mtime: int, now: int)
    ensures Keep(Entry(ArchiveFileName(runId), isDir, Some(mtime)), now) <==> now - mtime < FreshnessWindow
  {
    var stem := "yt-dl-results-" + IntToString(runId);
    assert ArchiveFileName(runId) == stem + "." + "zip";
    SuffixOfStemAndExt(stem, "zip");
    var name := ArchiveFileName(runId);
    assert Suffix(name) != LogSuffix by {
      assert Suffix(name)[1] == 'z' != LogSuffix[1];
    }
    assert !(CookiePrefix <= name) by {
      assert name[0] != CookiePrefix[0];
    }
    var e := Entry(name, isDir, Some(mtime));
    assert e.name == name && e.mtime.value == mtime;
    assert Keep(e, now) == (now - mtime < FreshnessWindow);
  }

  /** A log file next to `cookies_1700000000.txt`: neither is ever selected. */
  lemma LogAndCookieExample(stem: string, d1: bool, m1: Option<int>, d2: bool, m2: Option<int>, now: int)
    requires stem != []
    ensures Select([Entry(stem + ".log", d1, m1), Entry("cookies_1700000000.txt", d2, m2)], now) == []
  {
    var log, cookie := Entry(stem + ".log", d1, m1), Entry("cookies_1700000000.txt", d2, m2);
    LogFilesSkipped(stem, d1, m1, now);
    assert CookiePrefix <= cookie.name;
    assert !Keep(cookie, now);
    assert [log, cookie][1..] == [cookie];
    assert Select([cookie], now) == [];
  }
}
