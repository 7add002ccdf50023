/**
  The shared output directory and the names of the files a run leaves in it:
  the uploaded cookie copy, the downloader's log and the result archive,
  each stamped with an integer number of seconds since the epoch.
 */
module Artifacts {
  import opened Numbers

  const OutputDir: string := "/tmp/yt_downloader_outputs"

  /** `str(OUTPUT_DIR / name)`. */
  function InOutputDir(name: string): string {
    OutputDir + "/" + name
  }

  /** `cookies_<stamp>.txt`, the saved copy of an uploaded cookie file. */
  function CookieFileName(stamp: int): string {
    "cookies_" + IntToString(stamp) + ".txt"
  }

  /** `yt-dlp-<run id>.log`, the downloader's combined output. */
  function LogFileName(runId: int): string {
    "yt-dlp-" + IntToString(runId) + ".log"
  }

  /** `yt-dl-results-<run id>.zip`, the archive handed back to the caller. */
  function ArchiveFileName(runId: int): string {
    "yt-dl-results-" + IntToString(runId) + ".zip"
  }

  /** `str(n)` is injective, because `int()` reads it back. */
  lemma IntToStringInjective(a: int, b: int)
    requires IntToString(a) == IntToString(b)
    ensures a == b
  {
    ParseIntOfIntToString(a);
    ParseIntOfIntToString(b);
  }

  /** Stripping a fixed prefix and suffix recovers the middle. */
  lemma Unwrap(p: string, m1: string, m2: string, q: string)
    requires p + m1 + q == p + m2 + q
    ensures m1 == m2
  {
    assert m1 == (p + m1 + q)[|p|..|p| + |m1|];
    assert m2 == (p + m2 + q)[|p|..|p| + |m2|];
  }

  /** Runs with different ids write different logs and different archives,
      and cookie copies with different stamps do not overwrite each other. */
  lemma RunNamesDistinct(a: int, b: int)
    requires a != b
    ensures LogFileName(a) != LogFileName(b)
    ensures ArchiveFileName(a) != ArchiveFileName(b)
    ensures CookieFileName(a) != CookieFileName(b)
  {
    if LogFileName(a) == LogFileName(b) {
      Unwrap("yt-dlp-", IntToString(a), IntToString(b), ".log");
      IntToStringInjective(a, b);
    }
    if ArchiveFileName(a) == ArchiveFileName(b) {
      Unwrap("yt-dl-results-", IntToString(a), IntToString(b), ".zip");
      IntToStringInjective(a, b);
    }
    if CookieFileName(a) == CookieFileName(b) {
      Unwrap("cookies_", IntToString(a), IntToString(b), ".txt");
      IntToStringInjective(a, b);
    }
  }
}
