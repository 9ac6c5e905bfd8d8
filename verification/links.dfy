/**
 * Link classification of test/link.js: which links are URLs, how a URL's
 * domain key is built, which local links are checked and under what path,
 * and which hosts are excluded from the URL check.
 */
module Links {
  import opened Wrappers
  import opened SeqUtil
  import opened Strings

  // ---------------------------------------------------------------- isUrl

  /** `isUrl(link)`: anything starting with "http" (so also "https://..." and "httpd.md"). */
  predicate IsUrl(link: string)
  {
    StartsWith(link, "http")
  }

  /**
   * A link is a URL exactly when it is "http" followed by anything: the
   * scheme is not checked, so "httpd.md" counts as a URL and "HTTP://x" does not.
   */
  lemma UrlsAreHttpPrefixed(link: string)
    ensures IsUrl(link) <==> exists rest :: link == "http" + rest
  {
    if IsUrl(link) {
      assert link == "http" + link[4..];
    }
    forall rest | link == "http" + rest
      ensures IsUrl(link)
    {
      assert link[..4] == "http";
    }
  }

  // ------------------------------------------------------ deleteProtocolFromUrl

  /**
   * Length of the match of the regular expression `/https?:\/\//` at index
   * `i` of `s`, or 0 when it does not match there. The optional `s` is greedy,
   * so "https://" is tried before "http://".
   */
  function ProtocolLen(s: string, i: nat): (n: nat)
    requires i <= |s|
    ensures n == 0 || n == 7 || n == 8
    ensures i + n <= |s|
  {
    if StartsWith(s[i..], "https://") then 8
    else if StartsWith(s[i..], "http://") then 7
    else 0
  }

  /** The leftmost index at or after `from` where the protocol pattern matches. */
  function FindProtocol(s: string, from: nat): (r: Option<nat>)
    requires from <= |s|
    ensures r.Some? ==> from <= r.value <= |s| && ProtocolLen(s, r.value) > 0
    ensures r.Some? ==> forall j :: from <= j < r.value ==> ProtocolLen(s, j) == 0
    ensures r.None? ==> forall j :: from <= j <= |s| ==> ProtocolLen(s, j) == 0
    decreases |s| - from
  {
    if ProtocolLen(s, from) > 0 then Some(from)
    else if from == |s| then None
    else FindProtocol(s, from + 1)
  }

  /**
   * `deleteProtocolFromUrl(url)`: `url.replace(/https?:\/\//, "")`. The pattern
   * is neither anchored nor global, so only the leftmost match is removed,
   * wherever it is.
   */
  function DeleteProtocolFromUrl(url: string): (r: string)
    ensures r == url <==> FindProtocol(url, 0).None?
    ensures |url| - 8 <= |r| <= |url|
    ensures r != url ==> |r| == |url| - 7 || |r| == |url| - 8
  {
    match FindProtocol(url, 0)
    case None => url
    case Some(i) => url[..i] + url[i + ProtocolLen(url, i)..]
  }

  /**
   * Without a match the URL is unchanged; otherwise exactly the leftmost
   * match is cut out and the rest, including later matches, is kept.
   */
  lemma DeleteProtocolRemovesLeftmostMatch(url: string)
    ensures (forall j :: 0 <= j <= |url| ==> ProtocolLen(url, j) == 0) ==> DeleteProtocolFromUrl(url) == url
    ensures forall i :: (0 <= i <= |url| && ProtocolLen(url, i) > 0 && (forall j :: 0 <= j < i ==> ProtocolLen(url, j) == 0)
      ==> DeleteProtocolFromUrl(url) == url[..i] + url[i + ProtocolLen(url, i)..])
  {
    var found := FindProtocol(url, 0);
    forall i | 0 <= i <= |url| && ProtocolLen(url, i) > 0 && (forall j :: 0 <= j < i ==> ProtocolLen(url, j) == 0)
      ensures DeleteProtocolFromUrl(url) == url[..i] + url[i + ProtocolLen(url, i)..]
    {
      assert found.Some?;
      assert found.value == i;
    }
  }

  // ------------------------------------------------------------ deleteFirstKUSA

  /** `deleteFirstKUSA(url)`: `url.replace(/^www\./, "")`, one leading "www." removed. */
  function DeleteLeadingWww(url: string): (r: string)
    ensures StartsWith(url, "www.") ==> url == "www." + r
    ensures !StartsWith(url, "www.") ==> r == url
  {
    if StartsWith(url, "www.") then url[4..] else url
  }

  // ------------------------------------------------------------- domain key

  /** `DOMAIN_STR_NUM`: the number of leading characters taken as a domain key. */
  const DomainStrNum: nat := 7

  /** The host part the domain key is cut from: protocol and a leading "www." removed. */
  function StrippedHost(url: string): string
  {
    DeleteLeadingWww(DeleteProtocolFromUrl(url))
  }

  /**
   * The grouping key of line 278:
   * `deleteFirstKUSA(deleteProtocolFromUrl(s)).substr(0, DOMAIN_STR_NUM)`.
   */
  function DomainKey(url: string): (key: string)
    ensures |key| <= DomainStrNum
    ensures StartsWith(StrippedHost(url), key)
    ensures |StrippedHost(url)| <= DomainStrNum ==> key == StrippedHost(url)
    ensures |StrippedHost(url)| >= DomainStrNum ==> |key| == DomainStrNum
  {
    Take(StrippedHost(url), DomainStrNum)
  }

  /** A URL that starts with a scheme matches the protocol pattern at index 0. */
  lemma ProtocolAtStart(h: string)
    ensures ProtocolLen("http://" + h, 0) == 7
    ensures ProtocolLen("https://" + h, 0) == 8
  {
    var a := "http://" + h;
    assert a[0..] == a && a[..7] == "http://" && a[4] == ':';
    var b := "https://" + h;
    assert b[0..] == b && b[..8] == "https://";
  }

  /** With a scheme in front, the protocol removal strips exactly that scheme. */
  lemma DeleteSchemePrefix(h: string)
    ensures DeleteProtocolFromUrl("http://" + h) == h
    ensures DeleteProtocolFromUrl("https://" + h) == h
  {
    ProtocolAtStart(h);
    assert ("http://" + h)[7..] == h;
    assert ("https://" + h)[8..] == h;
  }

  /** Behind a scheme, the key is cut from the rest with a leading "www." removed. */
  lemma DomainKeyBehindScheme(rest: string)
    ensures DomainKey("http://" + rest) == Take(DeleteLeadingWww(rest), DomainStrNum)
    ensures DomainKey("https://" + rest) == Take(DeleteLeadingWww(rest), DomainStrNum)
  {
    DeleteSchemePrefix(rest);
  }

  /** Exactly one "www." is removed in front of a host that does not start with "www.". */
  lemma DeleteOneWww(h: string)
    requires !StartsWith(h, "www.")
    ensures DeleteLeadingWww("www." + h) == h
    ensures DeleteLeadingWww(h) == h
  {
    assert ("www." + h)[..4] == "www.";
    assert ("www." + h)[4..] == h;
  }

  /** The key does not depend on whether the URL uses "http" or "https". */
  lemma DomainKeyIgnoresScheme(rest: string)
    ensures DomainKey("http://" + rest) == DomainKey("https://" + rest)
  {
    DomainKeyBehindScheme(rest);
  }

  /**
   * The key does not depend on a leading "www.": for a host part `h` that does
   * not itself start with "www.", "https://www.h" and "https://h" both get the
   * first seven characters of `h` as key.
   */
  lemma DomainKeyIgnoresWww(h: string)
    requires !StartsWith(h, "www.")
    ensures DomainKey("https://" + ("www." + h)) == DomainKey("https://" + h) == Take(h, DomainStrNum)
  {
    DeleteOneWww(h);
    DomainKeyBehindScheme(h);
    DomainKeyBehindScheme("www." + h);
  }

  // -------------------------------------------------------- isBlackListedHost

  /** `BLACK_LIST`: hosts that only answer when a local server is running. */
  const BlackList: seq<string> := ["localhost", "127.0.0.1"]

  /**
   * The intended meaning of `isBlackListedHost(url)`: the URL, with its first
   * protocol removed, starts with a black-listed host. The source combines the
   * per-host results with `.any(identity)`. Standard arrays have no `any`
   * method; a library that adds `Array.prototype.any` as "some element is
   * truthy" gives exactly this predicate. See `IsBlackListedHostAsWritten`.
   */
  function IsBlackListedHost(url: string): (b: bool)
    ensures b <==> exists h :: h in BlackList && StartsWith(DeleteProtocolFromUrl(url), h)
  {
    var replaced := DeleteProtocolFromUrl(url);
    StartsWith(replaced, "localhost") || StartsWith(replaced, "127.0.0.1")
  }

  /**
   * `isBlackListedHost(url)` as written, on standard ECMAScript arrays:
   * `BLACK_LIST.map(..)` yields an array, and calling its `any` property,
   * which standard arrays do not have, throws a TypeError for every argument.
   * This holds only when no loaded library adds `Array.prototype.any`.
   */
  function IsBlackListedHostAsWritten(url: string): (r: Result<bool, string>)
    ensures r.Failure?
  {
    Failure("TypeError: BLACK_LIST.map(...).any is not a function")
  }

  /**
   * On standard arrays, the as-written check throws on every URL the
   * intended check excludes, for instance "http://localhost:9000/".
   */
  lemma BlackListAsWrittenThrows(host: string)
    requires StartsWith(host, "localhost") || StartsWith(host, "127.0.0.1")
    ensures IsBlackListedHost("http://" + host)
    ensures IsBlackListedHostAsWritten("http://" + host).Failure?
  {
    DeleteSchemePrefix(host);
  }

  // ------------------------------------------------------------- local links

  /**
   * The filter of lines 237-241: not a page anchor ("#..."), and one of the
   * checked extensions ".md", ".scala", ".sbt".
   */
  predicate IsCheckableLocal(s: string)
  {
    !StartsWith(s, "#") && (EndsWith(s, ".md") || EndsWith(s, ".scala") || EndsWith(s, ".sbt"))
  }

  /** Marker of files that are referenced as rendered HTML on purpose. */
  const ExampleProjects := "example_projects"

  /** `replace(/\.html$/, ".md")`: rewrite a trailing ".html" only. */
  function HtmlToMd(s: string): string
  {
    if EndsWith(s, ".html") then s[..|s| - 5] + ".md" else s
  }

  /**
   * `modifyLinkForTest(rawFilePath)`: the path under `src/`, with a trailing
   * ".html" rewritten to ".md" unless the path mentions `example_projects`.
   */
  function ModifyLinkForTest(p: string): (r: string)
    ensures StartsWith(r, "src/")
    ensures Contains(p, ExampleProjects) ==> r == "src/" + p
    ensures !Contains(p, ExampleProjects) && EndsWith(p, ".html") ==> r == "src/" + p[..|p| - 5] + ".md"
    ensures !EndsWith(p, ".html") ==> r == "src/" + p
  {
    EndsWithAfterPrefix("src/", p, ".html");
    if Contains(p, ExampleProjects) then "src/" + p
    else HtmlToMd("src/" + p)
  }

  /** No ".html" link passes the extension filter, so the ".html" rewrite never applies to a kept link. */
  lemma HtmlLinksAreNotChecked(p: string)
    requires EndsWith(p, ".html")
    ensures !IsCheckableLocal(p)
  {
    assert p[|p| - 1] == 'l';
  }

  /**
   * Lines 237-241: the local links that are checked, as paths under `src/`.
   * Each is the kept link with "src/" in front and nothing rewritten.
   */
  function LocalTestFiles(files: seq<string>): (r: seq<string>)
    ensures |r| == |Select(files, IsCheckableLocal, true)|
    ensures forall i :: 0 <= i < |r| ==> r[i] == "src/" + Select(files, IsCheckableLocal, true)[i]
  {
    var kept := Select(files, IsCheckableLocal, true);
    SelectMembers(files, IsCheckableLocal, true);
    forall i | 0 <= i < |kept|
      ensures ModifyLinkForTest(kept[i]) == "src/" + kept[i]
    {
      assert kept[i] in kept;
      if EndsWith(kept[i], ".html") {
        HtmlLinksAreNotChecked(kept[i]);
      }
    }
    Map(kept, ModifyLinkForTest)
  }

  // ------------------------------------------------- relativePathFromTestDir

  /** `relativePathFromTestDir(file)`: the path of `src/<file>` seen from the test directory. */
  function RelativePathFromTestDir(file: string): (r: string)
    ensures StartsWith(r, "../src/")
    ensures r[|"../src/"|..] == file
  {
    "../src/" + file
  }
}
