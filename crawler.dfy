/**
 * The string and path logic of resources_crawler.py: the directory a car page is saved under,
 * the early return when it exists, the pairing of the English and Arabic pages, the rewrite of
 * thumbnail URLs, the numbering of downloaded images and the clean-up of the queried fields.
 * HTTP and XPath are one function from a URL to the query results on the page it serves.
 */
module Crawler {
  import opened Wrappers
  import opened PyStr
  import opened Files

  /** The XPath query results on a fetched page, each in document order. */
  datatype Page = Page(
    imgSrcs: seq<string>,
    mileage: seq<string>,
    model: seq<string>,
    price: seq<string>,
    hrefs: seq<string>)

  /** The record `extract_info` returns; "tel" is absent when the page has no phone link. */
  datatype Info = Info(mileage: string, model: string, price: string, tel: Option<string>)

  /** How `download_url` fails: an `IndexError`, an empty query result, no language segment. */
  datatype CrawlError = NoDirName | EmptyQuery(field: string) | NoLanguage

  // ---------------------------------------------------------------------------------------------
  // The output directory

  /**
   * The segment of `url.split("/")` that names the directory, with Python's negative indexing:
   * the one before the last, or the one before that when the URL ends with '/'. It is one path
   * segment, so it holds no '/'.
   */
  function DirName(url: string): (r: Option<string>)
    ensures r.Some? ==> '/' !in r.value
  {
    SplitJoin(url, '/');
    var parts := Split(url, '/');
    var n := |parts|;
    if |parts[n - 1]| > 0 then PyIndex(parts, n - 2) else PyIndex(parts, n - 3)
  }

  /** Only the empty URL has no directory name. */
  lemma DirNameDefined(url: string)
    ensures DirName(url).None? <==> url == ""
  {
    var parts := Split(url, '/');
    SplitManyIffSep(url, '/');
    if '/' !in url {
      SplitSepFree(url, '/');
    }
  }

  /** A URL with a '/' and a non-empty last segment names the same directory with a trailing '/'. */
  lemma TrailingSlashSameDir(url: string)
    requires '/' in url && url[|url| - 1] != '/'
    ensures DirName(url + "/") == DirName(url)
  {
    var parts := Split(url, '/');
    SplitTrailingSep(url, '/');
    SplitManyIffSep(url, '/');
    SplitLastEmpty(url, '/');
    var parts' := Split(url + "/", '/');
    assert parts' == parts + [""];
    assert parts'[|parts'| - 3] == parts[|parts| - 2];
  }

  /** Without a '/', adding one changes the directory: "abc" names "abc", "abc/" names "". */
  lemma NoSlashCounterexample()
    ensures DirName("abc") == Some("abc")
    ensures DirName("abc/") == Some("")
  {
    SplitSepFree("abc", '/');
    SplitTrailingSep("abc", '/');
    assert "abc" + "/" == "abc/";
  }

  /** `datetime.now().strftime("%Y/%m/%d/") + out_dir`, with the date string given. */
  function OutDir(date: string, url: string): (r: Option<Path>)
    ensures r.Some? <==> DirName(url).Some?
    ensures r.Some? ==> |date| <= |r.value| && r.value[..|date|] == date && '/' !in r.value[|date|..]
  {
    match DirName(url)
    case None => None
    case Some(d) => Some(date + d)
  }

  // ---------------------------------------------------------------------------------------------
  // Language pairing

  /** The English and the Arabic URL of a page, and which of them is fetched first. */
  datatype Pairing = Pairing(en: string, ar: string, enFirst: bool)

  /**
   * The branches of `download_url` that choose the two info pages. A pairing exists exactly when
   * the URL has a language segment; the "/en/" branch comes first; the URL itself is fetched
   * first, and each paired URL carries its own language segment.
   */
  function LanguagePair(url: string): (r: Option<Pairing>)
    ensures r.Some? <==> Contains(url, "/en/") || Contains(url, "/ar/")
    ensures r.Some? ==>
      && (r.value.enFirst <==> Contains(url, "/en/"))
      && (if r.value.enFirst then r.value.en == url else r.value.ar == url)
      && Contains(r.value.en, "/en/") && Contains(r.value.ar, "/ar/")
  {
    if Contains(url, "/en/") then
      ReplaceShowsReplacement(url, "/en/", "/ar/");
      Some(Pairing(url, Replace(url, "/en/", "/ar/"), true))
    else if Contains(url, "/ar/") then
      ReplaceShowsReplacement(url, "/ar/", "/en/");
      Some(Pairing(Replace(url, "/ar/", "/en/"), url, false))
    else None
  }

  // ---------------------------------------------------------------------------------------------
  // Images

  /** `extract_imgs`: the full-size URL for each thumbnail source, in order. */
  method ExtractImgs(page: Page) returns (fixed: seq<string>)
    ensures |fixed| == |page.imgSrcs|
    ensures forall i :: 0 <= i < |fixed| ==> fixed[i] == Replace(page.imgSrcs[i], "thumb/", "o_")
  {
    fixed := [];
    for i := 0 to |page.imgSrcs|
      invariant |fixed| == i
      invariant forall j :: 0 <= j < i ==> fixed[j] == Replace(page.imgSrcs[j], "thumb/", "o_")
    {
      fixed := fixed + [Replace(page.imgSrcs[i], "thumb/", "o_")];
    }
  }

  /** The full-size URLs `extract_imgs` yields for a list of sources. */
  function FullSizeUrls(srcs: seq<string>): seq<string> {
    seq(|srcs|, i requires 0 <= i < |srcs| => Replace(srcs[i], "thumb/", "o_"))
  }

  /** Image k of a download is `<outDir>/<k>.jpg`. */
  function ImageFile(outDir: Path, k: nat): Path {
    outDir + "/" + NatToString(k) + ".jpg"
  }

  /** The files the first n downloads write, numbered from 1. */
  function ImageFiles(outDir: Path, n: nat): set<Path>
    decreases n
  {
    if n == 0 then {} else ImageFiles(outDir, n - 1) + {ImageFile(outDir, n)}
  }

  /** Two downloads never share a file name. */
  lemma ImageFileInjective(outDir: Path, a: nat, b: nat)
    ensures ImageFile(outDir, a) == ImageFile(outDir, b) ==> a == b
  {
    var pre := outDir + "/";
    var sa, sb := NatToString(a), NatToString(b);
    if ImageFile(outDir, a) == ImageFile(outDir, b) {
      assert sa == ImageFile(outDir, a)[|pre|..|pre| + |sa|];
      assert sb == ImageFile(outDir, b)[|pre|..|pre| + |sb|];
      NatToStringInjective(a, b);
    }
  }

  /** The first n downloads write the files numbered 1 to n, all inside the directory. */
  lemma {:induction false} ImageFilesMembers(outDir: Path, n: nat)
    ensures forall p :: p in ImageFiles(outDir, n) <==> exists k :: 1 <= k <= n && p == ImageFile(outDir, k)
    ensures forall p :: p in ImageFiles(outDir, n) ==> StartsWith(p, outDir + "/")
    decreases n
  {
    if n > 0 {
      ImageFilesMembers(outDir, n - 1);
      var pre := outDir + "/";
      assert ImageFile(outDir, n)[..|pre|] == pre;
    }
  }

  /** The first n downloads write n distinct files. */
  lemma {:induction false} ImageFilesCount(outDir: Path, n: nat)
    ensures |ImageFiles(outDir, n)| == n
    decreases n
  {
    if n > 0 {
      ImageFilesCount(outDir, n - 1);
      ImageFilesMembers(outDir, n - 1);
      if ImageFile(outDir, n) in ImageFiles(outDir, n - 1) {
        var k :| 1 <= k <= n - 1 && ImageFile(outDir, n) == ImageFile(outDir, k);
        ImageFileInjective(outDir, k, n);
      }
    }
  }

  /** `download_imgs(img_urls, out_dir)`: make the directory if absent, then one numbered file per URL. */
  method DownloadImgs(fs: FileSystem, urls: seq<string>, outDir: Path)
    returns (fs': FileSystem, requests: seq<string>)
    ensures fs' == fs + {outDir} + ImageFiles(outDir, |urls|)
    ensures requests == urls
  {
    fs' := fs;
    if outDir !in fs' {
      fs' := fs' + {outDir};
    }
    requests := [];
    var counter := 1;
    for i := 0 to |urls|
      invariant counter == i + 1
      invariant fs' == fs + {outDir} + ImageFiles(outDir, i)
      invariant requests == urls[..i]
    {
      var f := outDir + "/" + NatToString(counter) + ".jpg";
      requests := requests + [urls[i]];
      fs' := fs' + {f};
      counter := counter + 1;
    }
    assert urls[..|urls|] == urls;
  }

  // ---------------------------------------------------------------------------------------------
  // Page info

  /** The phone numbers `extract_info` collects: each "tel:" link with "tel:" removed, in order; at most one per link. */
  function TelNumbers(hrefs: seq<string>): (r: seq<string>)
    ensures |r| <= |hrefs|
    decreases |hrefs|
  {
    if hrefs == [] then []
    else
      var last := hrefs[|hrefs| - 1];
      TelNumbers(hrefs[..|hrefs| - 1]) + (if StartsWith(last, "tel:") then [Replace(last, "tel:", "")] else [])
  }

  /** Every number collected comes from a link that starts with "tel:", with "tel:" removed. */
  lemma {:induction false} TelNumbersFromLinks(hrefs: seq<string>)
    ensures forall k :: 0 <= k < |TelNumbers(hrefs)| ==>
      exists i :: 0 <= i < |hrefs| && StartsWith(hrefs[i], "tel:") && TelNumbers(hrefs)[k] == Replace(hrefs[i], "tel:", "")
    decreases |hrefs|
  {
    if hrefs != [] {
      var init := hrefs[..|hrefs| - 1];
      var last := |hrefs| - 1;
      TelNumbersFromLinks(init);
      var front := TelNumbers(init);
      var tail := if StartsWith(hrefs[last], "tel:") then [Replace(hrefs[last], "tel:", "")] else [];
      assert TelNumbers(hrefs) == front + tail;
      forall k | 0 <= k < |TelNumbers(hrefs)|
        ensures exists i :: 0 <= i < |hrefs| && StartsWith(hrefs[i], "tel:") && TelNumbers(hrefs)[k] == Replace(hrefs[i], "tel:", "")
      {
        var r := TelNumbers(hrefs);
        if k < |front| {
          assert r[k] == front[k];
          var i :| 0 <= i < |init| && StartsWith(init[i], "tel:") && front[k] == Replace(init[i], "tel:", "");
          assert init[i] == hrefs[i];
        } else {
          assert tail != [] && r[k] == tail[0];
          assert StartsWith(hrefs[last], "tel:") && r[k] == Replace(hrefs[last], "tel:", "");
        }
      }
    } else {
      assert TelNumbers(hrefs) == [];
    }
  }

  /** There is a phone number exactly when some link starts with "tel:", and the first comes from the first such link. */
  lemma {:induction false} TelNumbersFirst(hrefs: seq<string>)
    ensures |TelNumbers(hrefs)| > 0 <==> exists i :: 0 <= i < |hrefs| && StartsWith(hrefs[i], "tel:")
    ensures |TelNumbers(hrefs)| > 0 ==>
      exists i :: 0 <= i < |hrefs| && StartsWith(hrefs[i], "tel:")
        && (forall j :: 0 <= j < i ==> !StartsWith(hrefs[j], "tel:"))
        && TelNumbers(hrefs)[0] == Replace(hrefs[i], "tel:", "")
    decreases |hrefs|
  {
    if hrefs != [] {
      var init := hrefs[..|hrefs| - 1];
      TelNumbersFirst(init);
      assert forall j :: 0 <= j < |init| ==> init[j] == hrefs[j];
      if |TelNumbers(init)| > 0 {
        var i :| 0 <= i < |init| && StartsWith(init[i], "tel:")
          && (forall j :: 0 <= j < i ==> !StartsWith(init[j], "tel:"))
          && TelNumbers(init)[0] == Replace(init[i], "tel:", "");
        assert TelNumbers(hrefs)[0] == TelNumbers(init)[0];
      } else if StartsWith(hrefs[|hrefs| - 1], "tel:") {
        assert TelNumbers(hrefs)[0] == Replace(hrefs[|init|], "tel:", "");
      }
    }
  }

  /** No whitespace at either end. */
  predicate Trimmed(s: string) {
    s == [] || (!IsSpace(s[0]) && !IsSpace(s[|s| - 1]))
  }

  /** The price clean-up: strip, drop every "QAR", strip again. */
  function CleanPrice(raw: string): (p: string)
    ensures p == [] || (!IsSpace(p[0]) && !IsSpace(p[|p| - 1]))
  {
    Strip(Replace(Strip(raw), "QAR", ""))
  }

  /** A price without "QAR" is only stripped. */
  lemma CleanPriceWithoutCurrency(raw: string)
    requires !Contains(Strip(raw), "QAR")
    ensures CleanPrice(raw) == Strip(raw)
  {
    ReplaceAbsent(Strip(raw), "QAR", "");
    StripIdempotent(raw);
  }

  /**
   * What `extract_info` makes of a page; an empty query result is the `IndexError` of `[0]`. The
   * three text fields come out without whitespace at either end.
   */
  function PageInfo(page: Page): (r: Result<Info, CrawlError>)
    ensures r.Err? ==> r.error.EmptyQuery?
    ensures r.Ok? ==> Trimmed(r.value.mileage) && Trimmed(r.value.model) && Trimmed(r.value.price)
  {
    if |page.mileage| == 0 then Err(EmptyQuery("mileage"))
    else if |page.model| == 0 then Err(EmptyQuery("model"))
    else if |page.price| == 0 then Err(EmptyQuery("price"))
    else
      var tels := TelNumbers(page.hrefs);
      Ok(Info(Strip(page.mileage[0]), Strip(page.model[0]), CleanPrice(page.price[0]),
              if |tels| > 0 then Some(tels[0]) else None))
  }

  /**
   * `extract_info` fails exactly when a query comes back empty, naming the first in the order
   * mileage, model, price; otherwise the phone is present exactly when a link starts with "tel:",
   * and is the first such link without "tel:".
   */
  lemma PageInfoProperties(page: Page)
    ensures PageInfo(page).Err? <==> |page.mileage| == 0 || |page.model| == 0 || |page.price| == 0
    ensures |page.mileage| == 0 ==> PageInfo(page) == Err(EmptyQuery("mileage"))
    ensures |page.mileage| > 0 && |page.model| == 0 ==> PageInfo(page) == Err(EmptyQuery("model"))
    ensures PageInfo(page).Ok? ==>
      var info := PageInfo(page).value;
      && info.price == CleanPrice(page.price[0])
      && (info.tel.Some? <==> exists i :: 0 <= i < |page.hrefs| && StartsWith(page.hrefs[i], "tel:"))
      && (info.tel.Some? ==>
            exists i :: 0 <= i < |page.hrefs| && StartsWith(page.hrefs[i], "tel:")
              && (forall j :: 0 <= j < i ==> !StartsWith(page.hrefs[j], "tel:"))
              && info.tel.value == Replace(page.hrefs[i], "tel:", ""))
  {
    TelNumbersFirst(page.hrefs);
  }

  /** `extract_info(url)` on the page `url` serves. */
  method ExtractInfo(page: Page) returns (r: Result<Info, CrawlError>)
    ensures r == PageInfo(page)
  {
    if |page.mileage| == 0 {
      return Err(EmptyQuery("mileage"));
    }
    var mileage := Strip(page.mileage[0]);
    if |page.model| == 0 {
      return Err(EmptyQuery("model"));
    }
    var model := Strip(page.model[0]);
    if |page.price| == 0 {
      return Err(EmptyQuery("price"));
    }
    var price := Strip(page.price[0]);
    var telNums := CollectTels(page.hrefs);
    var phone: Option<string> := None;
    if |telNums| > 0 {
      phone := Some(telNums[0]);
    }
    return Ok(Info(mileage, model, Strip(Replace(price, "QAR", "")), phone));
  }

  /** The loop of `extract_info` over the links, keeping each "tel:" link without "tel:". */
  method CollectTels(hrefs: seq<string>) returns (telNums: seq<string>)
    ensures telNums == TelNumbers(hrefs)
  {
    telNums := [];
    for i := 0 to |hrefs|
      invariant telNums == TelNumbers(hrefs[..i])
    {
      assert hrefs[..i + 1][..i] == hrefs[..i];
      var tel := hrefs[i];
      if StartsWith(tel, "tel:") {
        telNums := telNums + [Replace(tel, "tel:", "")];
      }
    }
    assert hrefs[..|hrefs|] == hrefs;
  }

  // ---------------------------------------------------------------------------------------------
  // download_url

  /** The second half of `download_url`: the two info pages it fetches, in order, and the record they make. */
  datatype InfoFetch = InfoFetch(record: Result<map<string, Info>, CrawlError>, requests: seq<string>)

  /**
   * The info pages of a pairing: the first stops the run when it fails, before the second is
   * fetched, so the second page is requested exactly when the first one parses.
   */
  function FetchPair(pair: Pairing, fetch: string -> Page): (r: InfoFetch)
    ensures |r.requests| == 2 <==> PageInfo(fetch(if pair.enFirst then pair.en else pair.ar)).Ok?
    ensures r.record.Err? ==> r.record.error.EmptyQuery?
  {
    var first := if pair.enFirst then pair.en else pair.ar;
    var second := if pair.enFirst then pair.ar else pair.en;
    match PageInfo(fetch(first))
    case Err(e) => InfoFetch(Err(e), [first])
    case Ok(info1) =>
      match PageInfo(fetch(second))
      case Err(e) => InfoFetch(Err(e), [first, second])
      case Ok(info2) =>
        var en := if pair.enFirst then info1 else info2;
        var ar := if pair.enFirst then info2 else info1;
        InfoFetch(Ok(map["ar" := ar, "en" := en]), [first, second])
  }

  /** The language branches of `download_url` and the two `extract_info` calls. */
  method FetchInfos(url: string, fetch: string -> Page) returns (f: InfoFetch)
    ensures LanguagePair(url).None? ==> f == InfoFetch(Err(NoLanguage), [])
    ensures LanguagePair(url).Some? ==> f == FetchPair(LanguagePair(url).value, fetch)
  {
    var enInfo, arInfo;
    if Contains(url, "/en/") {
      var arUrl := Replace(url, "/en/", "/ar/");
      enInfo := ExtractInfo(fetch(url));
      if enInfo.Err? {
        return InfoFetch(Err(enInfo.error), [url]);
      }
      arInfo := ExtractInfo(fetch(arUrl));
      if arInfo.Err? {
        return InfoFetch(Err(arInfo.error), [url, arUrl]);
      }
      return InfoFetch(Ok(map["ar" := arInfo.value, "en" := enInfo.value]), [url, arUrl]);
    } else if Contains(url, "/ar/") {
      var enUrl := Replace(url, "/ar/", "/en/");
      arInfo := ExtractInfo(fetch(url));
      if arInfo.Err? {
        return InfoFetch(Err(arInfo.error), [url]);
      }
      enInfo := ExtractInfo(fetch(enUrl));
      if enInfo.Err? {
        return InfoFetch(Err(enInfo.error), [url, enUrl]);
      }
      return InfoFetch(Ok(map["ar" := arInfo.value, "en" := enInfo.value]), [url, enUrl]);
    }
    return InfoFetch(Err(NoLanguage), []);
  }

  /** A record is made only when both pages parse, and it has exactly the keys "ar" and "en". */
  lemma FetchPairRecord(pair: Pairing, fetch: string -> Page)
    ensures var f := FetchPair(pair, fetch);
      && (f.record.Ok? <==> PageInfo(fetch(pair.en)).Ok? && PageInfo(fetch(pair.ar)).Ok?)
      && (f.record.Ok? ==>
            && f.record.value.Keys == {"ar", "en"}
            && f.record.value["en"] == PageInfo(fetch(pair.en)).value
            && f.record.value["ar"] == PageInfo(fetch(pair.ar)).value)
      && 1 <= |f.requests| <= 2
      && f.requests[0] == (if pair.enFirst then pair.en else pair.ar)
  {
  }

  /** What `download_url` leaves behind: its result, the file system, the URLs fetched in order, the record saved. */
  datatype Crawl = Crawl(
    result: Result<Path, CrawlError>,
    fs: FileSystem,
    requests: seq<string>,
    record: Option<map<string, Info>>)

  /** `download_url(url)` on file system `fs`, with `fetch` serving every page. */
  function CrawlUrl(fs: FileSystem, url: string, date: string, fetch: string -> Page): (c: Crawl)
    ensures c.requests == [] <==> OutDir(date, url).None? || OutDir(date, url).value in fs
    ensures c.result.Ok? ==> OutDir(date, url).Some? && c.result.value == OutDir(date, url).value
  {
    match OutDir(date, url)
    case None => Crawl(Err(NoDirName), fs, [], None)
    case Some(dir) =>
      if dir in fs then Crawl(Ok(dir), fs, [], None)
      else
        var imgs := FullSizeUrls(fetch(url).imgSrcs);
        var fs1 := fs + {dir} + ImageFiles(dir, |imgs|);
        var reqs := [url] + imgs;
        var infos := match LanguagePair(url)
          case None => InfoFetch(Err(NoLanguage), [])
          case Some(pair) => FetchPair(pair, fetch);
        match infos.record
        case Err(e) => Crawl(Err(e), fs1, reqs + infos.requests, None)
        case Ok(record) => Crawl(Ok(dir), fs1 + {dir + "/data.json"}, reqs + infos.requests, Some(record))
  }

  /** `download_url(url)` */
  method DownloadUrl(fs: FileSystem, url: string, date: string, fetch: string -> Page) returns (c: Crawl)
    ensures c == CrawlUrl(fs, url, date, fetch)
  {
    var parts := Split(url, '/');
    var seg := if |parts[|parts| - 1]| > 0 then PyIndex(parts, |parts| - 2) else PyIndex(parts, |parts| - 3);
    if seg.None? {
      return Crawl(Err(NoDirName), fs, [], None);
    }
    var outDir := date + seg.value;
    if outDir in fs {
      return Crawl(Ok(outDir), fs, [], None);
    }
    var imgs := ExtractImgs(fetch(url));
    assert imgs == FullSizeUrls(fetch(url).imgSrcs);
    var fs', imgRequests := DownloadImgs(fs, imgs, outDir);
    var infos := FetchInfos(url, fetch);
    var requests := [url] + imgRequests + infos.requests;
    if infos.record.Err? {
      return Crawl(Err(infos.record.error), fs', requests, None);
    }
    fs' := fs' + {outDir + "/data.json"};
    return Crawl(Ok(outDir), fs', requests, Some(infos.record.value));
  }

  /** An existing directory is returned at once: nothing is fetched and nothing is written. */
  lemma FetchOnce(fs: FileSystem, url: string, date: string, fetch: string -> Page)
    requires OutDir(date, url).Some? && OutDir(date, url).value in fs
    ensures var c := CrawlUrl(fs, url, date, fetch);
      c.result == Ok(OutDir(date, url).value) && c.fs == fs && c.requests == [] && c.record.None?
  {
  }

  /** A crawl only adds files, all of them the directory itself or inside it. */
  lemma CrawlWritesInside(fs: FileSystem, url: string, date: string, fetch: string -> Page)
    ensures var c := CrawlUrl(fs, url, date, fetch);
      && fs <= c.fs
      && (c.fs != fs ==> OutDir(date, url).Some?)
      && (forall p :: p in c.fs - fs ==> p == OutDir(date, url).value || StartsWith(p, OutDir(date, url).value + "/"))
  {
    if OutDir(date, url).Some? {
      var dir := OutDir(date, url).value;
      ImageFilesMembers(dir, |fetch(url).imgSrcs|);
      var pre := dir + "/";
      assert (dir + "/data.json")[..|pre|] == pre;
    }
  }

  /**
   * A crawl that fetches anything fetches the page, then its images in order, then the info
   * pages; images are on disk even when the info pages fail; a saved record has the keys "ar" and "en".
   */
  lemma CrawlOrder(fs: FileSystem, url: string, date: string, fetch: string -> Page)
    ensures var c := CrawlUrl(fs, url, date, fetch);
      var imgs := FullSizeUrls(fetch(url).imgSrcs);
      && (c.requests != [] ==> |c.requests| >= 1 + |imgs| && c.requests[..1 + |imgs|] == [url] + imgs)
      && (c.requests != [] ==> ImageFiles(OutDir(date, url).value, |imgs|) <= c.fs)
      && (c.record.Some? ==> c.result.Ok? && c.record.value.Keys == {"ar", "en"})
  {
    var c := CrawlUrl(fs, url, date, fetch);
    var imgs := FullSizeUrls(fetch(url).imgSrcs);
    if c.requests != [] {
      var rest := c.requests[1 + |imgs|..];
      assert c.requests == [url] + imgs + rest;
      assert c.requests[..1 + |imgs|] == [url] + imgs;
    }
    if LanguagePair(url).Some? {
      FetchPairRecord(LanguagePair(url).value, fetch);
    }
  }
}
