/** The mock crawl service: a fixed list of nine link records built around the root url. */
module Actions {
  import opened Records
  import opened Text
  import ResultsDisplay

  /** `crawlWebsite(url)` without its simulated two-second delay. */
  function CrawlWebsite(url: string): (rs: seq<LinkRecord>)
    ensures |rs| == 9
    ensures forall i :: 0 <= i < |rs| ==> (rs[i].ok <==> rs[i].status == 200)
    ensures forall i :: 0 <= i < |rs| ==> rs[i].status in {200, 404, 500}
    ensures forall i :: 0 <= i < |rs| ==> StartsWith(rs[i].sourceUrl, url)
    ensures forall i :: 0 <= i < 6 ==> StartsWith(rs[i].url, url + "/") && |rs[i].url| > |url| + 1
    ensures rs[6].url == "https://external-site.com/resource"
    ensures rs[7].url == "https://partner-site.com"
    ensures rs[8].url == "https://broken-external.com"
  {
    [
      LinkRecord(url + "/about", url, 200, true),
      LinkRecord(url + "/products", url, 200, true),
      LinkRecord(url + "/contact", url, 200, true),
      LinkRecord(url + "/blog/post-1", url + "/blog", 200, true),
      LinkRecord(url + "/blog/post-2", url + "/blog", 404, false),
      LinkRecord(url + "/old-page", url + "/about", 404, false),
      LinkRecord("https://external-site.com/resource", url + "/resources", 500, false),
      LinkRecord("https://partner-site.com", url + "/partners", 200, true),
      LinkRecord("https://broken-external.com", url + "/partners", 404, false)
    ]
  }

  /** The ok column of the mock list, record by record. */
  const OkColumn: seq<bool> := [true, true, true, true, false, false, false, true, false]

  /** Any nine records with that ok column hold five working and four broken ones. */
  lemma {:induction false} CountsOfOkColumn(rs: seq<LinkRecord>)
    requires |rs| == 9 && forall i :: 0 <= i < 9 ==> rs[i].ok == OkColumn[i]
    ensures |ResultsDisplay.WithOk(rs, true)| == 5 && |ResultsDisplay.WithOk(rs, false)| == 4
  {
    // working[k - 1] is the number of records with ok = true among the first k records;
    // the remaining k - working[k - 1] of them are broken
    var working := [1, 2, 3, 4, 4, 4, 4, 5, 5];
    var k := 1;
    assert rs[..1] == [] + [rs[0]];
    ResultsDisplay.WithOkSnoc([], rs[0], true);
    ResultsDisplay.WithOkSnoc([], rs[0], false);
    while k < 9
      invariant 1 <= k <= 9
      invariant |ResultsDisplay.WithOk(rs[..k], true)| == working[k - 1]
      invariant |ResultsDisplay.WithOk(rs[..k], false)| == k - working[k - 1]
    {
      assert rs[..k + 1] == rs[..k] + [rs[k]];
      ResultsDisplay.WithOkSnoc(rs[..k], rs[k], true);
      ResultsDisplay.WithOkSnoc(rs[..k], rs[k], false);
      k := k + 1;
    }
    assert rs[..9] == rs;
  }

  /** Whatever the root, the crawl reports five working and four broken links. */
  lemma CrawlCounts(url: string)
    ensures ResultsDisplay.WorkingCount(CrawlWebsite(url)) == 5
    ensures ResultsDisplay.BrokenCount(CrawlWebsite(url)) == 4
  {
    CountsOfOkColumn(CrawlWebsite(url));
  }

  /** The three external links do not depend on the root url. */
  lemma ExternalLinksFixed(u1: string, u2: string)
    ensures forall i :: 6 <= i < 9 ==> CrawlWebsite(u1)[i].url == CrawlWebsite(u2)[i].url
  {
  }
}
