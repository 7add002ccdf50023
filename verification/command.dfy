/**
  The command builder: turns the user's choices (URL, target format,
  quality ceiling, cookie source, raw extra arguments) into the argument
  vector handed to the `yt-dlp` downloader. It never fails: unusable
  choices degrade to defaults.

  The builder is split into its decisions (`Plan`, an `Invocation`) and the
  argument layout (`Render`); `Parse` reads an argument vector of that layout
  back, and the two are inverse to each other.
 */
module Command {
  import opened Wrappers
  import opened Text
  import opened Numbers
  import opened Shlex
  import opened Artifacts
  import opened Seqs

  const Program: string := "yt-dlp"
  /** Output template: remote title and native extension, inside the output directory. */
  const OutputTemplate: string := InOutputDir("%(title)s.%(ext)s")
  /** The browser cookies are taken from; not configurable. */
  const BrowserName: string := "chrome"
  const AudioFormats: set<string> := {"mp3", "m4a", "wav"}
  const VideoFormats: set<string> := {"mp4", "webm"}
  /** Format expression when there is no height ceiling. */
  const BestSelector: string := "bestvideo+bestaudio/best"
  /** Flags added to every command: embed metadata and thumbnail, suppress warnings. */
  const DefaultFlags: seq<string> := ["--embed-metadata", "--embed-thumbnail", "--no-warnings"]

  /** Where the downloader gets cookies from. */
  datatype CookieSource = NoCookies | CookieFile(path: string) | BrowserCookies(browser: string)

  /** What the downloader is asked to produce. */
  datatype FormatChoice =
    | NativeFormat
    | ExtractAudio(codec: string)
    | MergeVideo(selector: string, container: string)

  /** Everything a command says, apart from its fixed parts. */
  datatype Invocation = Invocation(url: string, cookies: CookieSource, format: FormatChoice, extra: seq<string>)

  /** Cookie priority: an uploaded cookie file wins; otherwise the browser's
      cookies when the option is on; otherwise none. */
  function CookieSourceFor(useBrowserCookies: bool, cookiesPath: string): (c: CookieSource)
    ensures cookiesPath != "" ==> c == CookieFile(cookiesPath)
    ensures c.BrowserCookies? <==> cookiesPath == "" && useBrowserCookies
    ensures c.BrowserCookies? ==> c.browser == BrowserName
    ensures c == NoCookies <==> cookiesPath == "" && !useBrowserCookies
  {
    if cookiesPath != "" then CookieFile(cookiesPath)
    else if useBrowserCookies then BrowserCookies(BrowserName)
    else NoCookies
  }

  /** Format expression capping both video and fallback at height `h`. */
  function CappedSelector(h: int): string {
    "bestvideo[height<=" + IntToString(h) + "]+bestaudio/best[height<=" + IntToString(h) + "]"
  }

  /** The format expression for a quality choice: uncapped for "best" and
      for anything `int()` rejects, capped at the parsed height otherwise. */
  function VideoSelector(quality: string): string {
    if quality == "best" then BestSelector
    else match ParseInt(quality)
      case Some(h) => CappedSelector(h)
      case None => BestSelector
  }

  /** Audio targets extract audio with that codec; video targets merge the
      selected streams into that container; anything else adds no format flags. */
  function FormatFor(targetFormat: string, quality: string): (f: FormatChoice)
    ensures f.ExtractAudio? <==> targetFormat in AudioFormats
    ensures f.MergeVideo? <==> targetFormat in VideoFormats
    ensures f.NativeFormat? <==> targetFormat !in AudioFormats + VideoFormats
    ensures f.ExtractAudio? ==> f.codec == targetFormat
    ensures f.MergeVideo? ==> f.container == targetFormat && f.selector == VideoSelector(quality)
  {
    if targetFormat in AudioFormats then ExtractAudio(targetFormat)
    else if targetFormat in VideoFormats then MergeVideo(VideoSelector(quality), targetFormat)
    else NativeFormat
  }

  /**
    The raw advanced text as extra arguments: nothing when it is blank, the
    quote-aware split when that succeeds, the naive whitespace split when it
    does not.
   */
  function AdvancedArgs(advanced: string): seq<string> {
    if |Strip(advanced)| == 0 then []
    else
      match Tokenize(advanced)
      case Some(tokens) => tokens
      case None => Split(advanced)
  }

  /** The three cases of the advanced text, stated in terms of its characters. */
  lemma AdvancedArgsCases(advanced: string)
    ensures IsBlank(advanced) ==> AdvancedArgs(advanced) == []
    ensures !IsBlank(advanced) && Tokenize(advanced).Some? ==> AdvancedArgs(advanced) == Tokenize(advanced).value
    ensures Tokenize(advanced) == None ==> AdvancedArgs(advanced) == Split(advanced)
  {
    StripEmptyIffBlank(advanced);
    if IsBlank(advanced) {
      SplitBlank(advanced);
    }
  }

  /** The fallback is reachable: advanced text such as `it's` makes the
      quote-aware split fail, and its whitespace-separated words are used. */
  lemma UnclosedQuoteFallsBack(w: string, q: string)
    requires IsBareWord(w) && '\'' !in q
    ensures Tokenize(w + "'" + q) == None
    ensures AdvancedArgs(w + "'" + q) == Split(w + "'" + q)
  {
    UnclosedQuoteFails(w, q);
    AdvancedArgsCases(w + "'" + q);
  }

  /** For advanced text without quotes or backslashes, the extra arguments
      are exactly its whitespace-separated words, whichever split was used. */
  lemma PlainAdvancedArgs(advanced: string)
    requires IsPlain(advanced) && SpacesAgree(advanced)
    ensures AdvancedArgs(advanced) == Split(advanced)
  {
    AdvancedArgsCases(advanced);
    PlainTokenizeIsSplit(advanced);
  }

  /** The builder's decisions for one request. */
  function Plan(url: string, targetFormat: string, quality: string, useBrowserCookies: bool,
                cookiesPath: string, advanced: string): Invocation
  {
    Invocation(url, CookieSourceFor(useBrowserCookies, cookiesPath),
               FormatFor(targetFormat, quality), AdvancedArgs(advanced))
  }

  function CookieArgs(c: CookieSource): seq<string> {
    match c
    case NoCookies => []
    case CookieFile(path) => ["--cookies", path]
    case BrowserCookies(browser) => ["--cookies-from-browser", browser]
  }

  function FormatArgs(f: FormatChoice): seq<string> {
    match f
    case NativeFormat => []
    case ExtractAudio(codec) => ["-x", "--audio-format", codec]
    case MergeVideo(selector, container) => ["-f", selector, "--merge-output-format", container]
  }

  /** The fixed start of every command: program, URL, output template. */
  function BaseArgs(url: string): seq<string> {
    [Program, url, "-o", OutputTemplate]
  }

  /** The argument layout: base, cookie flags, format flags, defaults, extras. */
  function Render(inv: Invocation): seq<string> {
    BaseArgs(inv.url) + CookieArgs(inv.cookies) + FormatArgs(inv.format) + DefaultFlags + inv.extra
  }

  /** Reads the cookie flags at the head of `a`, with how many arguments they take. */
  function ParseCookies(a: seq<string>): (r: (CookieSource, nat))
    ensures r.1 <= |a| && a[..r.1] == CookieArgs(r.0)
  {
    if |a| >= 2 && a[0] == "--cookies" then (CookieFile(a[1]), 2)
    else if |a| >= 2 && a[0] == "--cookies-from-browser" then (BrowserCookies(a[1]), 2)
    else (NoCookies, 0)
  }

  /** Reads the format flags at the head of `a`; None when they are malformed. */
  function ParseFormat(a: seq<string>): (r: Option<(FormatChoice, nat)>)
    ensures r.Some? ==> r.value.1 <= |a| && a[..r.value.1] == FormatArgs(r.value.0)
  {
    if |a| >= 1 && a[0] == "-x" then
      if |a| >= 3 && a[1] == "--audio-format" then Some((ExtractAudio(a[2]), 3)) else None
    else if |a| >= 1 && a[0] == "-f" then
      if |a| >= 4 && a[2] == "--merge-output-format" then Some((MergeVideo(a[1], a[3]), 4)) else None
    else Some((NativeFormat, 0))
  }

  /** Reads an argument vector of the builder's layout back into an invocation. */
  function Parse(argv: seq<string>): Option<Invocation> {
    if |argv| < 4 || argv[..4] != BaseArgs(argv[1]) then None
    else
      var (cookies, i) := ParseCookies(argv[4..]);
      match ParseFormat(argv[4 + i..])
      case None => None
      case Some((format, j)) =>
        var k := 4 + i + j;
        if |argv| < k + 3 || argv[k..k + 3] != DefaultFlags then None
        else Some(Invocation(argv[1], cookies, format, argv[k + 3..]))
  }

  lemma ParseCookiesOf(c: CookieSource, rest: seq<string>)
    requires |rest| > 0 && rest[0] in {"-x", "-f", DefaultFlags[0]}
    ensures ParseCookies(CookieArgs(c) + rest) == (c, |CookieArgs(c)|)
  {
    assert (CookieArgs(c) + rest)[|CookieArgs(c)|] == rest[0];
  }

  lemma ParseFormatOf(f: FormatChoice, rest: seq<string>)
    requires |rest| > 0 && rest[0] == DefaultFlags[0]
    ensures ParseFormat(FormatArgs(f) + rest) == Some((f, |FormatArgs(f)|))
  {
    assert (FormatArgs(f) + rest)[|FormatArgs(f)|] == rest[0];
  }

  /** Reading a rendered command gives back the invocation it was rendered from. */
  lemma ParseRender(inv: Invocation)
    ensures Parse(Render(inv)) == Some(inv)
  {
    var argv := Render(inv);
    var ca, fa := CookieArgs(inv.cookies), FormatArgs(inv.format);
    var k := 4 + |ca| + |fa|;
    RenderLayout(inv);
    assert ParseCookies(argv[4..]) == (inv.cookies, |ca|) by {
      assert (fa + (DefaultFlags + inv.extra))[0] in {"-x", "-f", DefaultFlags[0]};
      ParseCookiesOf(inv.cookies, fa + (DefaultFlags + inv.extra));
    }
    assert ParseFormat(argv[4 + |ca|..]) == Some((inv.format, |fa|)) by {
      ParseFormatOf(inv.format, DefaultFlags + inv.extra);
    }
    ParseOf(argv, inv.cookies, |ca|, inv.format, |fa|);
  }

  /** The slices of a rendered command: base, cookie flags, format flags, default flags, extras. */
  lemma RenderLayout(inv: Invocation)
    ensures var argv, ca, fa := Render(inv), CookieArgs(inv.cookies), FormatArgs(inv.format);
      var k := 4 + |ca| + |fa|;
      && |argv| == k + 3 + |inv.extra|
      && argv[..4] == BaseArgs(inv.url) && argv[1] == inv.url
      && argv[4..] == ca + (fa + (DefaultFlags + inv.extra))
      && argv[4 + |ca|..] == fa + (DefaultFlags + inv.extra)
      && argv[k..k + 3] == DefaultFlags
      && argv[k + 3..] == inv.extra
  {
    var b, ca, fa, ex := BaseArgs(inv.url), CookieArgs(inv.cookies), FormatArgs(inv.format), inv.extra;
    AppendAssoc(b + ca + fa, DefaultFlags, ex);
    AppendAssoc(b + ca, fa, DefaultFlags + ex);
    AppendAssoc(b, ca, fa + (DefaultFlags + ex));
    Slices(b, ca, fa, DefaultFlags, ex);
  }

  /** The five consecutive pieces of `b + c + f + d + e`, sliced back out. */
  lemma Slices<T>(b: seq<T>, c: seq<T>, f: seq<T>, d: seq<T>, e: seq<T>)
    ensures var s, k := b + (c + (f + (d + e))), |b| + |c| + |f|;
      && |s| == k + |d| + |e|
      && s[..|b|] == b
      && s[|b|..] == c + (f + (d + e))
      && s[|b| + |c|..] == f + (d + e)
      && s[k..k + |d|] == d
      && s[k + |d|..] == e
  {
    var s, k := b + (c + (f + (d + e))), |b| + |c| + |f|;
    DropPrefix(s, |b|, c, f + (d + e));
    DropPrefix(s, |b| + |c|, f, d + e);
    DropPrefix(s, k, d, e);
    assert s[k..k + |d|] == s[k..][..|d|];
  }

  /** `Parse` in terms of what its three stages read. */
  lemma ParseOf(argv: seq<string>, cookies: CookieSource, i: nat, format: FormatChoice, j: nat)
    requires |argv| >= 4 && argv[..4] == BaseArgs(argv[1])
    requires ParseCookies(argv[4..]) == (cookies, i)
    requires 4 + i <= |argv| && ParseFormat(argv[4 + i..]) == Some((format, j))
    requires |argv| >= 4 + i + j + 3 && argv[4 + i + j..4 + i + j + 3] == DefaultFlags
    ensures Parse(argv) == Some(Invocation(argv[1], cookies, format, argv[4 + i + j + 3..]))
  {
  }

  /** Conversely, every argument vector `Parse` accepts is the rendering of what it reads. */
  lemma RenderParse(argv: seq<string>)
    requires Parse(argv).Some?
    ensures Render(Parse(argv).value) == argv
  {
    var inv := Parse(argv).value;
    var (cookies, i) := ParseCookies(argv[4..]);
    var (format, j) := ParseFormat(argv[4 + i..]).value;
    var k := 4 + i + j;
    assert argv[4..4 + i] == CookieArgs(cookies) by {
      assert argv[4..][..i] == argv[4..4 + i];
    }
    assert argv[4 + i..k] == FormatArgs(format) by {
      assert argv[4 + i..][..j] == argv[4 + i..k];
    }
    FiveSlices(argv, 4, 4 + i, k, k + 3);
  }

  /** `build_yt_dlp_cmd`: the argument vector for one request. */
  function BuildCommand(url: string, targetFormat: string, quality: string, useBrowserCookies: bool,
                        cookiesPath: string, advanced: string): (cmd: seq<string>)
    ensures |cmd| >= 7 && cmd[..4] == [Program, url, "-o", OutputTemplate]
    ensures var extra := AdvancedArgs(advanced);
      && |cmd| >= 7 + |extra|
      && cmd[|cmd| - |extra| - 3..|cmd| - |extra|] == DefaultFlags
      && cmd[|cmd| - |extra|..] == extra
    ensures Parse(cmd) == Some(Plan(url, targetFormat, quality, useBrowserCookies, cookiesPath, advanced))
  {
    var inv := Plan(url, targetFormat, quality, useBrowserCookies, cookiesPath, advanced);
    ParseRender(inv);
    Render(inv)
  }

  /** Where the format flags start: right after the cookie flags, if there are any. */
  function FormatFlagsStart(useBrowserCookies: bool, cookiesPath: string): nat {
    if cookiesPath != "" || useBrowserCookies then 6 else 4
  }

  /**
    Cookie priority as it shows in the command: an uploaded cookie file gives
    `--cookies <path>` and no browser cookies; only without one, and with the
    option on, does `--cookies-from-browser chrome` appear; otherwise the
    format flags or the default flags follow the output template directly.
   */
  lemma CookieFlags(url: string, targetFormat: string, quality: string, useBrowserCookies: bool,
                    cookiesPath: string, advanced: string)
    ensures var cmd := BuildCommand(url, targetFormat, quality, useBrowserCookies, cookiesPath, advanced);
      && (cookiesPath != "" ==> cmd[4..6] == ["--cookies", cookiesPath])
      && (cookiesPath == "" && useBrowserCookies ==> cmd[4..6] == ["--cookies-from-browser", BrowserName])
      && (cookiesPath == "" && !useBrowserCookies ==> cmd[4] in {"-x", "-f", DefaultFlags[0]})
      && (Parse(cmd).value.cookies.BrowserCookies? <==> cookiesPath == "" && useBrowserCookies)
  {
    var inv := Plan(url, targetFormat, quality, useBrowserCookies, cookiesPath, advanced);
    var cmd := Render(inv);
    var ca, fa := CookieArgs(inv.cookies), FormatArgs(inv.format);
    RenderLayout(inv);
    TakeFromTail(cmd, 4, ca, fa + (DefaultFlags + inv.extra));
    if cookiesPath == "" && !useBrowserCookies {
      assert ca == [];
      assert cmd[4] == cmd[4..][0];
      assert (fa + (DefaultFlags + inv.extra))[0] in {"-x", "-f", DefaultFlags[0]};
    }
  }

  /** The layout after the cookie flags, for any choice of format flags. */
  lemma FlagsAfterCookies(url: string, targetFormat: string, quality: string, useBrowserCookies: bool,
                          cookiesPath: string, advanced: string)
    ensures var cmd := BuildCommand(url, targetFormat, quality, useBrowserCookies, cookiesPath, advanced);
      var k := FormatFlagsStart(useBrowserCookies, cookiesPath);
      cmd[k..] == FormatArgs(FormatFor(targetFormat, quality)) + DefaultFlags + AdvancedArgs(advanced)
  {
    var inv := Plan(url, targetFormat, quality, useBrowserCookies, cookiesPath, advanced);
    var cmd := Render(inv);
    var ca, fa := CookieArgs(inv.cookies), FormatArgs(inv.format);
    assert BuildCommand(url, targetFormat, quality, useBrowserCookies, cookiesPath, advanced) == cmd;
    RenderLayout(inv);
    assert FormatFlagsStart(useBrowserCookies, cookiesPath) == 4 + |ca|;
    assert cmd[4 + |ca|..] == fa + (DefaultFlags + inv.extra);
    AppendAssoc(fa, DefaultFlags, inv.extra);
    assert cmd[4 + |ca|..] == fa + DefaultFlags + inv.extra;
    var k := FormatFlagsStart(useBrowserCookies, cookiesPath);
    assert cmd[k..] == FormatArgs(FormatFor(targetFormat, quality)) + DefaultFlags + AdvancedArgs(advanced);
  }

  /** Slicing the format flags and the default flags off the tail of a command. */
  lemma TailLayout(cmd: seq<string>, k: nat, fa: seq<string>, extra: seq<string>)
    requires k <= |cmd| && cmd[k..] == fa + DefaultFlags + extra
    ensures |cmd| == k + |fa| + 3 + |extra|
    ensures cmd[k..k + |fa| + 3] == fa + DefaultFlags
  {
    assert cmd[k..k + |fa| + 3] == cmd[k..][..|fa| + 3];
  }

  /** Audio targets: `-x --audio-format <fmt>` and nothing else before the default flags. */
  lemma AudioFlags(url: string, targetFormat: string, quality: string, useBrowserCookies: bool,
                   cookiesPath: string, advanced: string)
    requires targetFormat in AudioFormats
    ensures var cmd := BuildCommand(url, targetFormat, quality, useBrowserCookies, cookiesPath, advanced);
      var k := FormatFlagsStart(useBrowserCookies, cookiesPath);
      && |cmd| == k + 6 + |AdvancedArgs(advanced)|
      && cmd[k..k + 6] == ["-x", "--audio-format", targetFormat] + DefaultFlags
  {
    var cmd := BuildCommand(url, targetFormat, quality, useBrowserCookies, cookiesPath, advanced);
    var k := FormatFlagsStart(useBrowserCookies, cookiesPath);
    var fa := FormatArgs(FormatFor(targetFormat, quality));
    FlagsAfterCookies(url, targetFormat, quality, useBrowserCookies, cookiesPath, advanced);
    assert fa == ["-x", "--audio-format", targetFormat];
    TailLayout(cmd, k, fa, AdvancedArgs(advanced));
  }

  /** Video targets: `-f <selector> --merge-output-format <fmt>` and nothing else
      before the default flags. */
  lemma VideoFlags(url: string, targetFormat: string, quality: string, useBrowserCookies: bool,
                   cookiesPath: string, advanced: string)
    requires targetFormat in VideoFormats
    ensures var cmd := BuildCommand(url, targetFormat, quality, useBrowserCookies, cookiesPath, advanced);
      var k := FormatFlagsStart(useBrowserCookies, cookiesPath);
      && |cmd| == k + 7 + |AdvancedArgs(advanced)|
      && cmd[k..k + 7] == ["-f", VideoSelector(quality), "--merge-output-format", targetFormat] + DefaultFlags
  {
    var cmd := BuildCommand(url, targetFormat, quality, useBrowserCookies, cookiesPath, advanced);
    var k := FormatFlagsStart(useBrowserCookies, cookiesPath);
    var fa := FormatArgs(FormatFor(targetFormat, quality));
    FlagsAfterCookies(url, targetFormat, quality, useBrowserCookies, cookiesPath, advanced);
    assert fa == ["-f", VideoSelector(quality), "--merge-output-format", targetFormat];
    TailLayout(cmd, k, fa, AdvancedArgs(advanced));
  }

  /** Any other target: no format flags at all, the default flags come next. */
  lemma NoFormatFlags(url: string, targetFormat: string, quality: string, useBrowserCookies: bool,
                      cookiesPath: string, advanced: string)
    requires targetFormat !in AudioFormats && targetFormat !in VideoFormats
    ensures var cmd := BuildCommand(url, targetFormat, quality, useBrowserCookies, cookiesPath, advanced);
      var k := FormatFlagsStart(useBrowserCookies, cookiesPath);
      && |cmd| == k + 3 + |AdvancedArgs(advanced)|
      && cmd[k..k + 3] == DefaultFlags
  {
    var cmd := BuildCommand(url, targetFormat, quality, useBrowserCookies, cookiesPath, advanced);
    var k := FormatFlagsStart(useBrowserCookies, cookiesPath);
    var fa := FormatArgs(FormatFor(targetFormat, quality));
    FlagsAfterCookies(url, targetFormat, quality, useBrowserCookies, cookiesPath, advanced);
    assert fa == [];
    TailLayout(cmd, k, fa, AdvancedArgs(advanced));
    assert fa + DefaultFlags == DefaultFlags;
  }

  /** A height written the way the quality menu writes it (`"1080"`) caps the
      video and the fallback at exactly that height. */
  lemma QualityCapsHeight(quality: string)
    requires IsCanonical(quality)
    ensures VideoSelector(quality) == "bestvideo[height<=" + quality + "]+bestaudio/best[height<=" + quality + "]"
  {
    IntToStringOfParseInt(quality);
  }

  lemma CappedIsNotBest(h: int)
    ensures CappedSelector(h) != BestSelector
  {
    var head := "bestvideo[height<=";
    var s := IntToString(h);
    assert CappedSelector(h) == head + (s + "]+bestaudio/best[height<=" + s + "]");
    assert CappedSelector(h)[9] == head[9] == '[';
    assert BestSelector[9] == '+';
  }

  /** Apart from "best", the uncapped expression is chosen exactly when `int()`
      rejects the quality: there is no error outcome. */
  lemma QualityFallback(quality: string)
    requires quality != "best"
    ensures VideoSelector(quality) == BestSelector <==> ParseInt(quality) == None
  {
    var parsed := ParseInt(quality);
    if parsed.Some? {
      CappedIsNotBest(parsed.value);
    }
  }

  /** A quality that starts with a letter, such as `"ultra"`, is rejected by
      `int()` and silently falls back to the uncapped expression. */
  lemma LetterQualityIsBest(quality: string)
    requires quality != [] && 'a' <= quality[0] <= 'z' && quality != "best"
    requires !IsIntSpace(quality[|quality| - 1])
    ensures ParseInt(quality) == None
    ensures VideoSelector(quality) == BestSelector
  {
    ParseIntUntrimmed(quality);
    assert !IsDigit(quality[0]);
  }

  /** The quality `"ultra"` silently falls back to the uncapped expression. */
  lemma UltraQualityIsBest()
    ensures ParseInt("ultra") == None
    ensures VideoSelector("ultra") == BestSelector
  {
    var q := "ultra";
    assert q[0] == 'u' && q[|q| - 1] == 'a' && q[1] != "best"[1];
    LetterQualityIsBest(q);
  }

  /** A quality starting with one of the separators U+001C to U+001F is
      rejected by `int()`, so it silently gets the uncapped expression. */
  lemma SeparatorQualityIsBest(c: char, rest: string)
    requires '\U{1C}' <= c <= '\U{1F}'
    ensures VideoSelector([c] + rest) == BestSelector
  {
    SeparatorRejected(c, rest);
    assert ([c] + rest)[0] != "best"[0];
  }

  /** The whole command for an mp4 download capped at a menu height such as
      `"1080"`, with no cookies and no advanced options. */
  lemma CappedMp4Command(url: string, quality: string)
    requires IsCanonical(quality)
    ensures BuildCommand(url, "mp4", quality, false, "", "") ==
      ["yt-dlp", url, "-o", OutputTemplate]
      + ["-f", "bestvideo[height<=" + quality + "]+bestaudio/best[height<=" + quality + "]",
         "--merge-output-format", "mp4"]
      + ["--embed-metadata", "--embed-thumbnail", "--no-warnings"]
  {
    QualityCapsHeight(quality);
    var sel := "bestvideo[height<=" + quality + "]+bestaudio/best[height<=" + quality + "]";
    assert AdvancedArgs("") == [];
    var inv := Invocation(url, NoCookies, MergeVideo(sel, "mp4"), []);
    assert Plan(url, "mp4", quality, false, "", "") == inv;
    assert CookieArgs(inv.cookies) == [];
    assert Render(inv) == BaseArgs(url) + [] + FormatArgs(inv.format) + DefaultFlags + [];
    assert BaseArgs(url) + [] == BaseArgs(url);
    assert FormatArgs(inv.format) + DefaultFlags + [] == FormatArgs(inv.format) + DefaultFlags;
  }
}
