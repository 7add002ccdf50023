# yt-dlp web front end: command builder, result collector, request outcome

A Dafny model of the logic in `app.py` of a small web front end for the
`yt-dlp` media downloader. The front end turns a form (URL, target format,
quality ceiling, cookie source, raw extra arguments) into a `yt-dlp`
argument vector. It runs the downloader. It then scans a shared output
directory for fresh files and zips them, or it returns the downloader's log
as the error.

The model is functional. An argument vector is a `seq<string>`. A directory
listing is a `seq<Entry>`. Everything the outside world decides is a
parameter: the clock, the run id, the cookie copy, the process result, the
listing and the log text.

Modules, one per concern:

- `Text`: Python's notion of whitespace, `str.strip()`, and `str.split()` with no separator.
- `Numbers`: `int(text)` in base 10 and `str(n)`, with round trips both ways.
- `Shlex`: `shlex.split` in POSIX mode, as a lexer state machine.
- `Artifacts`: the output directory and the cookie, log and archive file names.
- `Command`: `build_yt_dlp_cmd`. It is split into the builder's decisions (`Plan`) and the argument layout (`Render`). `Parse` reads that layout back, and it is proved inverse to `Render` in both directions.
- `Results`: the directory scan of `run_download` (which entries count as this run's output).
- `Download`: `run_download` as a whole: URL guard, cookie copy, command, process result, scan, and archive or error.

Behaviour of the code worth noting:

- `app.py` excludes an entry as a log when pathlib's `suffix` of its name is `.log`. A file named exactly `.log` has an empty suffix, so it is not excluded.
- `app.py` returns the archive as `str(zip_path)`, the full path inside the output directory.
- `app.py` never inspects the downloader's exit code. `Download.ExitCodeIgnored` states this.

## Model

| member | source | states |
|---|---|---|
| `Command.BuildCommand` | app.py:13-55 | The command starts with `yt-dlp <url> -o <dir>/%(title)s.%(ext)s`. The advanced tokens come last, and the three default flags come right before them. Read back with `Parse`, the command yields exactly the builder's plan (cookie source, format choice, extra tokens). |
| `Command.CookieSourceFor` | app.py:17-23 | A non-empty cookie path always wins. Browser cookies (always `chrome`) are chosen if and only if the path is empty and the option is on. There are no cookies if and only if the path is empty and the option is off. |
| `Command.CookieFlags` | app.py:17-23 | In the command itself: a cookie path gives `--cookies <path>` at positions 4-5. With no path and the option on, `--cookies-from-browser chrome` is there instead. Otherwise a format or default flag follows the template directly. The command carries browser cookies if and only if the path is empty and the option is on. |
| `Command.FormatFor` | app.py:25-40 | Audio extraction if and only if the format is in {mp3, m4a, wav}, with that codec. Video merging if and only if it is in {mp4, webm}, with that container and the quality's selector. Neither one if and only if the format is in neither set. |
| `Command.AudioFlags` | app.py:26-28 | For an audio format, the flags after the cookie flags are exactly `-x --audio-format <fmt>`, then the default flags, then the advanced tokens. So no `-f` or `--merge-output-format` comes from the builder. |
| `Command.VideoFlags` | app.py:29-40 | For a video format, the flags after the cookie flags are exactly `-f <selector> --merge-output-format <fmt>`, then the default flags, then the advanced tokens. |
| `Command.NoFormatFlags` | app.py:25-43 | For any other format, the default flags follow the cookie flags directly: no `-x`, `-f` or `--merge-output-format`. |
| `Command.QualityCapsHeight` | app.py:34-37 | A quality written like a menu height (`"1080"`) gives `bestvideo[height<=1080]+bestaudio/best[height<=1080]`. |
| `Command.QualityFallback` | app.py:31-39 | For a quality other than "best", the uncapped `bestvideo+bestaudio/best` is chosen if and only if `int()` rejects the quality. Nothing fails. |
| `Command.LetterQualityIsBest` | app.py:35-39 | A quality other than "best" that starts with a lower-case letter and does not end in whitespace is rejected by `int()`, and it silently gives the uncapped expression. |
| `Command.UltraQualityIsBest` | app.py:35-39 | The quality "ultra" does not parse, and it silently gives the uncapped expression. |
| `Command.SeparatorQualityIsBest` | app.py:35-39 | A quality starting with one of the separators U+001C to U+001F is rejected by `int()`, so it gets the uncapped expression. This holds even when digits follow. |
| `Command.CappedMp4Command` | app.py:13-55 | The whole argument vector for mp4 at a menu height, with no cookies and no advanced text, is exactly 11 arguments. |
| `Command.AdvancedArgsCases` | app.py:45-53 | Blank advanced text adds nothing. Otherwise the quote-aware tokens are appended. When quote-aware tokenising fails, the whitespace split is appended instead. |
| `Command.PlainAdvancedArgs` | app.py:45-53 | Advanced text with no quotes or backslashes, and no whitespace other than space, tab, CR and LF, contributes exactly its whitespace-separated words. |
| `Command.UnclosedQuoteFallsBack` | app.py:48-53 | The fallback is reachable: for a bare word followed by an apostrophe nothing closes (`it's`), the quote-aware split fails and the whitespace-separated words are appended instead. |
| `Command.RenderLayout` | app.py:15-53 | A command is, in order: the four base arguments, the cookie flags, the format flags, the three default flags, and the advanced tokens, each at the position the lengths before it determine. |
| `Command.ParseRender` | app.py:15-53 | Reading a rendered command back gives the invocation it came from. So the layout is unambiguous, even when the URL or the cookie path looks like a flag. |
| `Command.RenderParse` | app.py:15-53 | Every argument vector the reader accepts is the rendering of what it reads. |
| `Shlex.PlainTokenizeIsSplit` | app.py:48-53 | On text with no quotes or backslashes, and no whitespace other than space, tab, CR and LF, `shlex.split` and `str.split()` give the same tokens. |
| `Shlex.UnclosedQuoteFails` | app.py:48-51 | A bare word followed by an apostrophe that nothing closes makes `shlex.split` raise. |
| `Shlex.PlainNeverFails` | app.py:48-53 | `shlex.split` can fail only on text that has a quote or a backslash. |
| `Shlex.TokenizeQuoteAll` | app.py:49 | Single-quoted tokens, separated by blanks, come back as exactly those tokens, blanks inside them included. |
| `Shlex.WordsThenQuoted` | app.py:49 | Two plain words followed by a double-quoted phrase give exactly three tokens, with the blank inside the quotes kept. `--playlist-items 1-3 "my file.txt"` is one such input. |
| `Text.StripEmptyIffBlank` | app.py:62 | `not s or not s.strip()` holds exactly when every character of `s` is whitespace. |
| `Text.SplitSpec` | app.py:53 | `str.split()` yields non-empty, whitespace-free tokens. Put together, they are exactly the non-whitespace characters of the text. |
| `Text.SplitOfWord` | app.py:53 | A non-empty run without whitespace is one token. |
| `Text.SplitAtSpace` | app.py:53 | Every whitespace character separates tokens: the split of `a + c + b` is the split of `a` followed by the split of `b`. With `Text.SplitOfWord` this fixes the tokens as the maximal whitespace-free runs. |
| `Numbers.ParseIntOfDigits` | app.py:36 | `int()` of a plain digit string is that string's decimal value. |
| `Numbers.SeparatorRejected` | app.py:36 | `int()` fails on text that starts with one of the separators U+001C to U+001F. `str.isspace()` counts them as whitespace, but `int()` does not skip them. |
| `Numbers.ParseIntOfIntToString` | app.py:36-37 | `int(str(n)) == n` for every integer. |
| `Numbers.IntToStringOfParseInt` | app.py:36-37 | `str(int(s)) == s` for every canonical digit string. So the selector repeats the menu height verbatim. |
| `Artifacts.RunNamesDistinct` | app.py:75-86 | Different run ids give different log names and archive names. Different stamps give different cookie names. |
| `Results.SelectSpec` | app.py:96-107 | The results are an order-preserving subsequence of the listing. Every result satisfies the predicate, and every listed entry that satisfies it is among the results. |
| `Results.SelectCounts` | app.py:97-107 | An accepted entry occurs in the results exactly as often as in the listing, and a rejected one never does. |
| `Results.CollectResults` | app.py:97-107 | The scan loop computes exactly `Select` over the listing. |
| `Results.LastIndexOfSpec` | app.py:100 | `rfind` returns -1 exactly when the character is absent. Otherwise it returns a position holding the character, with no later occurrence. |
| `Results.SuffixSpec` | app.py:100 | A non-empty suffix is a dot plus at least one more character, with no other dot. It is a proper tail of the name. |
| `Results.SuffixOfStemAndExt` | app.py:100 | pathlib's suffix of `stem.ext` is `.ext` when the stem is non-empty and the extension has no dot. |
| `Results.LogFilesSkipped` | app.py:100 | Any `<stem>.log` with a non-empty stem is skipped, whatever its age. |
| `Results.RunArtifactsNeverSelected` | app.py:98-107 | This run's `yt-dlp-<id>.log` and `cookies_<t>.txt` are never among the results, for any listing and time. |
| `Results.ArchivesNotExcluded` | app.py:100-105 | An earlier `yt-dl-results-<id>.zip` is selected if and only if it is less than 3600 s old. Archives are not excluded by name. |
| `Results.LogAndCookieExample` | app.py:98-107 | A listing holding a `.log` file and `cookies_1700000000.txt` yields no results. |
| `Download.LogExcerpt` | app.py:113 | The excerpt is a prefix of the log. It is the whole log when the log has at most 8000 characters, and exactly its first 8000 characters otherwise. |
| `Download.Conclude` | app.py:109-125 | An archive is returned if and only if there are results, and if and only if the message is the success message. The archive path is `<dir>/yt-dl-results-<id>.zip`. With no results and a readable log, the message is the heading, a blank line and the log excerpt (the corrected text; see "## Left out"). With no results and an unreadable log, it is `No output files were produced; check server logs.` |
| `Download.ConcludeAsWritten` | app.py:109-125 | The same outcome with the no-output message exactly as the code builds it: the heading, the four characters backslash, `n`, backslash, `n`, then the log excerpt. The unreadable-log message is as in `Download.Conclude`. |
| `Download.ConcludeOnlyMessageDiffers` | app.py:109-125 | The code's outcome and the corrected one return the same archive. They are equal exactly when there are results or the log is unreadable. |
| `Download.RunDownload` | app.py:57-125 | A blank URL returns `(None, "Please provide a URL.")`, and no command is built. A command is built if and only if the URL is not blank and the cookie copy did not fail. That command is the builder's, with the saved cookie path. An archive is returned if and only if the process exited and the scan found results. Archive and error message never come together. The archive holds one entry per result, in order: the result's name, with a `/` appended for a directory. |
| `Download.ArchiveName` | app.py:123 | The stored name is the result's name, followed by one `/` exactly when the result is a directory. So for a name without `/`, the stored name contains `/` if and only if the result is a directory. |
| `Download.ExitCodeIgnored` | app.py:87-109 | The outcome is the same whatever exit code the downloader returns. |
| `Download.NoResultsReportsLog` | app.py:109-114 | With no fresh results and a readable log, the response is no archive plus the heading and at most 8000 characters of the log. |
| `Download.SingleResultArchive` | app.py:118-125 | With exactly one fresh result, the archive holds exactly that entry under its name (with a trailing `/` for a directory), and the success message is returned. |
| `Download.NoOutputMessageAsWrittenRunsIntoLog` | app.py:114 | As written, for every log, backslash, `n`, backslash, `n` stand between the heading and the log excerpt, and nothing before the excerpt is a line break. |
| `Download.NoOutputMessageSeparatesLog` | app.py:114 | Corrected: the heading is the first line, a blank line follows, and the log excerpt starts on the third line. |

## Left out

- Process execution (app.py:87-93) is left out: `subprocess.run`, its 1800 s timeout, and the log-file redirection. Only its outcome is modelled, as the input `ProcessResult` (exited with any code, timed out, or binary missing). Spawn failures other than a missing binary are not modelled.
- Copying the uploaded cookie file (app.py:66-80) is left out. That includes the tuple-or-file-object handling of the upload. Only its outcome is modelled, as the input `CookieUpload` (none, saved at a time stamp, or failed with a reason).
- Reading the log back (app.py:111-116) is left out, including the decoding with `errors="ignore"`. The log text is an input `Option<string>`; None stands for a read failure.
- Writing the zip (app.py:119-123) is left out. Only the archive path and the entry names are modelled. A failure while writing the archive is unhandled in the code and is not modelled.
- Clocks are integer parameters: `now`, the run id and the cookie stamp. `st_mtime` is a float in the code; here it is whole seconds.
- The code calls `time.time()` again for every entry. Here one `now` serves the whole scan.
- The directory listing is an input sequence in `iterdir` order. Each entry records whether it is a directory. The scan keeps a fresh directory just as it keeps a file. The archive stores a directory as one entry named `name/`, without any of its contents, which is what `zipfile` does for `write(p, arcname=p.name)`. The bytes written for a file are not modelled.
- Creating the output directory at import time (app.py:10-11) is left out.
- Numbers.ParseInt: Python's `int()` also accepts underscores between digits and non-ASCII decimal digits. The model accepts only an optional sign and ASCII digits between the whitespace `int()` skips. That whitespace is ASCII space, tab, line feed, vertical tab, form feed and carriage return, plus the non-ASCII characters `str.isspace()` accepts. The separators U+001C to U+001F are not part of it.
- Numbers.ParseInt: since Python 3.11 (and in the 3.7 to 3.10 security releases), `int()` raises ValueError on a decimal string of more than 4300 digits (`sys.int_info.default_max_str_digits`). The model has no such limit. So for a quality of more than 4300 digits, app.py:36-39 falls back to `bestvideo+bestaudio/best`, while the model caps at the parsed height.
- Numbers.ParseIntOfIntToString: holds for every integer only without that limit. In Python `str(n)` itself raises for an integer of more than 4300 decimal digits.
- Numbers.IntToStringOfParseInt: the same limit applies to the digit strings it covers.
- Command.QualityCapsHeight: holds for menu heights. A height string of more than 4300 digits gets the uncapped selector under that limit.
- Command.QualityFallback: "`int()` rejects the quality" means the model's `ParseInt`, which does not have the 4300-digit limit.
- Shlex.Tokenize models `shlex.split` with its defaults: POSIX mode, whitespace splitting, no comments, no punctuation characters. Inside double quotes, a backslash escapes only `"` and `\`, as in `shlex` (not also `$`, backquote and newline, as the POSIX shell does).
- Download.Conclude: returns the corrected no-output message (heading, blank line, log excerpt), not the one app.py:114 builds. `Download.ConcludeAsWritten` returns the code's text, and `Download.ConcludeOnlyMessageDiffers` states that this message is the only difference.
- Download.RunDownload: uses `Download.Conclude`, so its no-output response carries the corrected message rather than the code's.
- Download.NoResultsReportsLog: states the corrected message. The code's message is `Download.NoOutputMessageAsWritten`; see `Download.ConcludeAsWritten`.
- The form and the status updates (app.py:128-169) are left out: they are presentation only.

## Findings

| source | as written | input that shows it | evidently intended | confidence | as-written member | corrected member |
|---|---|---|---|---|---|---|
| app.py:114 | `"No output files were produced. See log:\\n\\n"`: the doubled backslashes put a backslash, `n`, a backslash and `n` into the message | any request with a non-blank URL where the downloader exits, the scan finds no fresh file, and the log is readable | two line breaks, so the log starts on its own line | medium; not executed | `Download.NoOutputMessageAsWrittenRunsIntoLog` | `Download.NoOutputMessageSeparatesLog` |

`Download.Conclude` and `Download.RunDownload` use the corrected message, `Download.NoOutputMessage`. `Download.ConcludeAsWritten` is the outcome with the message as written, and `Download.ConcludeOnlyMessageDiffers` shows that the two differ in exactly this case.
