/**
 * The "Check links" suite of test/link.js as one pure computation: from the
 * links found on every page, the local files whose existence is checked and
 * the batches in which the external URLs are requested. Reading the pages,
 * the existence checks and the HTTP requests themselves are not modelled.
 */
module LinkCheck {
  import opened Wrappers
  import opened SeqUtil
  import opened Strings
  import opened Grouping
  import opened Links
  import opened Scheduler

  /** The file names of `src/` that are manuscripts. */
  predicate IsMarkdown(s: string)
  {
    EndsWith(s, ".md")
  }

  /**
   * `targets` (lines 218-221): the top-level README followed by every
   * Markdown file of `src/`, in directory order, as paths from the test
   * directory.
   */
  function Targets(srcEntries: seq<string>): (r: seq<string>)
    ensures |r| > 0 && r[0] == "../README.md"
    ensures |r| == 1 + |Select(srcEntries, IsMarkdown, true)|
    ensures forall i :: 1 <= i < |r| ==> r[i] == "../src/" + Select(srcEntries, IsMarkdown, true)[i - 1]
    ensures forall t :: t in r[1..] <==> exists e :: e in srcEntries && IsMarkdown(e) && t == "../src/" + e
  {
    var md := Select(srcEntries, IsMarkdown, true);
    SelectMembers(srcEntries, IsMarkdown, true);
    var r := Merge(["../README.md"], Map(md, RelativePathFromTestDir));
    assert r[1..] == Map(md, RelativePathFromTestDir);
    r
  }

  /** A parsed page, reduced to the `href` of its anchors and the `src` of its images. */
  datatype Page = Page(hrefs: seq<string>, imgs: seq<string>)

  function Hrefs(p: Page): seq<string> { p.hrefs }
  function Imgs(p: Page): seq<string> { p.imgs }

  /**
   * `links` (lines 225-228): the anchors of all pages, page by page, followed
   * by the images of all pages.
   */
  function AllLinks(pages: seq<Page>): (links: seq<string>)
    requires |pages| > 0
    ensures links == ConcatMap(pages, Hrefs) + ConcatMap(pages, Imgs)
  {
    Merge(FlatMap(pages, Hrefs), FlatMap(pages, Imgs))
  }

  /**
   * `urls` (lines 229 and 232): the URL links, de-duplicated, in order of
   * first occurrence.
   */
  function Urls(links: seq<string>): (r: seq<string>)
    ensures NoDup(r)
    ensures forall u :: u in r <==> u in links && IsUrl(u)
  {
    SelectMembers(links, IsUrl, true);
    Dedup(Select(links, IsUrl, true))
  }

  /** What the suite derives from the links. */
  datatype Plan = Plan(
    testFiles: seq<string>,                       // local files whose existence is checked
    urls: seq<string>,                            // de-duplicated external links
    testUrls: seq<string>,                        // the URLs that are requested
    batches: Result<seq<seq<string>>, string>)    // the request rounds, or why the URL test throws

  /** `testUrls` (line 268): the URLs whose host is not black-listed, in order. */
  function TestUrls(urls: seq<string>): (r: seq<string>)
    ensures forall u :: u in r <==> u in urls && !IsBlackListedHost(u)
    ensures NoDup(urls) ==> NoDup(r)
  {
    SelectMembers(urls, IsBlackListedHost, false);
    assert NoDup(urls) ==> NoDup(Select(urls, IsBlackListedHost, false)) by {
      if NoDup(urls) { SelectNoDup(urls, IsBlackListedHost, false); }
    }
    Select(urls, IsBlackListedHost, false)
  }

  /**
   * `testUrls` (line 268) with the black-list check as written, on standard
   * arrays without an `any` method: the filter calls it on the first URL,
   * which throws, so the URL test either throws here or is left with no URL
   * at all (and then throws in `transpose`). With a library that adds
   * `Array.prototype.any`, the filter is `TestUrls` instead.
   */
  function TestUrlsAsWritten(urls: seq<string>): (r: Result<seq<string>, string>)
    ensures r.Success? <==> |urls| == 0
    ensures r.Success? ==> r.value == []
  {
    if |urls| == 0 then Success([])
    else Failure(IsBlackListedHostAsWritten(urls[0]).error)
  }

  /**
   * `testFiles` (lines 237-241): the local links that are checked, as paths
   * under `src/`; exactly the checkable non-URL links.
   */
  function TestFiles(files: seq<string>): (r: seq<string>)
    ensures forall f :: f in r <==> exists l :: l in files && IsCheckableLocal(l) && f == "src/" + l
  {
    var r := LocalTestFiles(files);
    var kept := Select(files, IsCheckableLocal, true);
    SelectMembers(files, IsCheckableLocal, true);
    assert forall f :: f in r <==> exists l :: l in files && IsCheckableLocal(l) && f == "src/" + l by {
      forall f
        ensures f in r <==> exists l :: l in files && IsCheckableLocal(l) && f == "src/" + l
      {
        if f in r {
          var i :| 0 <= i < |r| && r[i] == f;
          assert kept[i] in kept;
        }
        if l :| l in files && IsCheckableLocal(l) && f == "src/" + l {
          var i :| 0 <= i < |kept| && kept[i] == l;
          assert r[i] == f;
        }
      }
    }
    r
  }

  /**
   * Lines 276-321 after the black-list filter: spread the URLs over waves by
   * domain key and cut the waves into request rounds. With no URL to test,
   * `transpose` of no rows throws a RangeError.
   */
  method RequestRounds(testUrls: seq<string>) returns (batches: Result<seq<seq<string>>, string>)
    requires NoDup(testUrls)
    requires forall u :: u in testUrls ==> IsUrl(u)
    ensures batches.Success? <==> |testUrls| > 0
    ensures batches.Success? ==>
      && (forall k :: 0 <= k < |batches.value| ==> |batches.value[k]| <= MaxConnection)
      && (forall k :: 0 <= k < |batches.value| ==> DistinctKeys(batches.value[k], DomainKey))
      && NoDup(Concat(batches.value))
      && multiset(Concat(batches.value)) == multiset(testUrls)
    ensures batches.Success? ==> batches.value == Dispatch(Waves(testUrls, DomainKey, NonEmpty))
    ensures batches.Success? ==>
      forall k :: WithKey(Concat(batches.value), DomainKey, k) == WithKey(testUrls, DomainKey, k)
  {
    if |testUrls| == 0 {
      return Failure("RangeError: Invalid array length");
    }
    var waves := GroupByAndTranspose(testUrls, DomainKey, NonEmpty);
    SelectAll(testUrls, NonEmpty);
    var rounds := Dispatch(waves);
    DispatchKeepsDistinctKeys(waves, DomainKey);
    NoDupOfSameMultiset(testUrls, Concat(rounds));
    forall k
      ensures WithKey(Concat(rounds), DomainKey, k) == WithKey(testUrls, DomainKey, k)
    {
      WavesKeepKeyOrder(testUrls, DomainKey, NonEmpty, k);
    }
    return Success(rounds);
  }

  /**
   * The suite from the links to the request rounds: split the links into
   * URLs and files (line 229), de-duplicate the URLs (line 232), keep the
   * checkable local files (lines 237-241), drop black-listed hosts
   * (line 268) and plan the request rounds (lines 276-321).
   */
  method CheckLinks(pages: seq<Page>) returns (plan: Plan)
    requires |pages| > 0
    ensures forall f :: f in plan.testFiles <==>
      exists l :: l in AllLinks(pages) && !IsUrl(l) && IsCheckableLocal(l) && f == "src/" + l
    ensures NoDup(plan.urls)
    ensures forall u :: u in plan.urls <==> u in AllLinks(pages) && IsUrl(u)
    ensures forall u :: u in plan.testUrls <==> u in AllLinks(pages) && IsUrl(u) && !IsBlackListedHost(u)
    ensures plan.batches.Success? <==> |plan.testUrls| > 0
    ensures plan.batches.Success? ==>
      && (forall k :: 0 <= k < |plan.batches.value| ==> |plan.batches.value[k]| <= MaxConnection)
      && (forall k :: 0 <= k < |plan.batches.value| ==> DistinctKeys(plan.batches.value[k], DomainKey))
      && NoDup(Concat(plan.batches.value))
      && multiset(Concat(plan.batches.value)) == multiset(plan.testUrls)
    ensures plan.batches.Success? ==>
      forall k :: WithKey(Concat(plan.batches.value), DomainKey, k) == WithKey(plan.testUrls, DomainKey, k)
    ensures plan.urls == Dedup(Select(AllLinks(pages), IsUrl, true))
    ensures plan.testFiles == TestFiles(Select(AllLinks(pages), IsUrl, false))
    ensures plan.testUrls == TestUrls(plan.urls)
    ensures plan.batches.Success? ==> plan.batches.value == Dispatch(Waves(plan.testUrls, DomainKey, NonEmpty))
  {
    var links := AllLinks(pages);
    var urls, files := Partition(links, IsUrl);
    SelectMembers(links, IsUrl, false);
    urls := Dedup(urls);
    assert urls == Urls(links);
    var testFiles := TestFiles(files);
    var testUrls := TestUrls(urls);
    var batches := RequestRounds(testUrls);
    plan := Plan(testFiles, urls, testUrls, batches);
  }
}
