/**
 * The crawl session store behind the link checker page: the history of crawls (most recent
 * first), the crawl on display, the loading flag, the persisted copy of the history and
 * the `?id=` view reference.
 */
module LinkChecker {
  import opened Records
  import opened Text
  import Actions
  import ResultsDisplay

  predicate HasScheme(url: string)
  {
    StartsWith(url, "http://") || StartsWith(url, "https://")
  }

  /** Prepend `https://` unless the input already names `http://` or `https://`. */
  function NormalizeUrl(url: string): (r: string)
    ensures HasScheme(r)
    ensures HasScheme(url) ==> r == url
    ensures !HasScheme(url) ==> r == "https://" + url
  {
    if !StartsWith(url, "http://") && !StartsWith(url, "https://") then "https://" + url else url
  }

  lemma NormalizeIdempotent(url: string)
    ensures NormalizeUrl(NormalizeUrl(url)) == NormalizeUrl(url)
  {
  }

  /** `history.find((item) => item.id === id)`: the first entry with that id, if any. */
  function FindById(history: seq<CrawlResult>, id: string): (r: Option<CrawlResult>)
    ensures r.Some? <==> exists i :: 0 <= i < |history| && history[i].id == id
    ensures r.Some? ==> exists i :: 0 <= i < |history| && history[i] == r.value && r.value.id == id &&
                                    forall j :: 0 <= j < i ==> history[j].id != id
  {
    if history == [] then None
    else if history[0].id == id then Some(history[0])
    else
      var r := FindById(history[1..], id);
      assert forall i :: 1 <= i < |history| ==> history[i] == history[1..][i - 1];
      r
  }

  /** The state of the link checker component. */
  class Store {
    var crawlHistory: seq<CrawlResult>
    var currentCrawl: Option<CrawlResult>
    var isLoading: bool
    /** The `crawlHistory` storage entry; `None` when the key is absent. */
    var storage: Option<seq<CrawlResult>>
    /** The `id` query parameter of the page's location. */
    var viewRef: Option<string>

    /** The persisted copy agrees with the history. */
    ghost predicate Persisted()
      reads this
    {
      storage == Some(crawlHistory)
    }

    /** A crawl on display is the first history entry named by the view reference. */
    ghost predicate ViewConsistent()
      reads this
    {
      currentCrawl.Some? ==> viewRef.Some? && FindById(crawlHistory, viewRef.value) == currentCrawl
    }

    ghost predicate Valid()
      reads this
    {
      Persisted() && ViewConsistent() && !isLoading
    }

    /** The component before its effects have run: empty history, nothing on display. */
    constructor (saved: Option<seq<CrawlResult>>, selectedId: Option<string>)
      ensures crawlHistory == [] && currentCrawl == None && !isLoading
      ensures storage == saved && viewRef == selectedId
    {
      crawlHistory := [];
      currentCrawl := None;
      isLoading := false;
      storage := saved;
      viewRef := selectedId;
    }

    /** The load effect: adopt the stored history and, if `?id=` names one of its entries, show it. */
    method Load()
      modifies this`crawlHistory, this`currentCrawl
      ensures crawlHistory == (if storage.Some? then storage.value else old(crawlHistory))
      ensures currentCrawl ==
        (if storage.Some? && viewRef.Some? && viewRef.value != "" && FindById(storage.value, viewRef.value).Some?
         then FindById(storage.value, viewRef.value)
         else old(currentCrawl))
    {
      if storage.Some? {
        var history := storage.value;
        crawlHistory := history;
        if viewRef.None? || viewRef.value == "" {
          return;
        }
        var selected := FindById(history, viewRef.value);
        if selected.Some? {
          currentCrawl := selected;
        }
      }
    }

    /** The save effect; its guard `length < 0` never holds, so the history is always written. */
    method Save()
      modifies this`storage
      ensures Persisted()
    {
      if |crawlHistory| < 0 {
        return;
      }
      storage := Some(crawlHistory);
    }

    /** Mounting the component: the load effect, then the save effect. */
    method Mount()
      modifies this`crawlHistory, this`currentCrawl, this`storage
      ensures crawlHistory == (if old(storage).Some? then old(storage).value else old(crawlHistory))
      ensures currentCrawl ==
        (if old(storage).Some? && viewRef.Some? && viewRef.value != "" && FindById(old(storage).value, viewRef.value).Some?
         then FindById(old(storage).value, viewRef.value)
         else old(currentCrawl))
      ensures Persisted()
      ensures old(currentCrawl) == None && !isLoading ==> Valid()
    {
      Load();
      Save();
    }

    /**
     * `handleSubmit`. `failed` says whether the call to the crawl service was rejected;
     * `now` is `Date.now().toString()` and `date` the ISO time stamp of the new crawl.
     */
    method Submit(url: string, failed: bool, now: string, date: string)
      modifies this`crawlHistory, this`currentCrawl, this`isLoading, this`storage, this`viewRef
      ensures url == "" ==>
        crawlHistory == old(crawlHistory) && currentCrawl == old(currentCrawl) &&
        isLoading == old(isLoading) && storage == old(storage) && viewRef == old(viewRef)
      ensures url != "" ==> !isLoading
      ensures url != "" && failed ==>
        crawlHistory == old(crawlHistory) && currentCrawl == old(currentCrawl) &&
        storage == old(storage) && viewRef == old(viewRef)
      ensures url != "" && !failed ==>
        var newCrawl := CrawlResult(now, NormalizeUrl(url), date, Actions.CrawlWebsite(NormalizeUrl(url)));
        crawlHistory == [newCrawl] + old(crawlHistory) && currentCrawl == Some(newCrawl) &&
        viewRef == Some(newCrawl.id) && Persisted()
      ensures old(Valid()) ==> Valid()
    {
      if url == "" {
        return;
      }
      isLoading := true;
      var normalizedUrl := url;
      if !StartsWith(normalizedUrl, "http://") && !StartsWith(normalizedUrl, "https://") {
        normalizedUrl := "https://" + normalizedUrl;
      }
      if !failed {
        var results := Actions.CrawlWebsite(normalizedUrl);
        var newCrawl := CrawlResult(now, normalizedUrl, date, results);
        currentCrawl := Some(newCrawl);
        crawlHistory := [newCrawl] + crawlHistory;
        viewRef := Some(newCrawl.id);
        Save();
      }
      isLoading := false;
    }

    /** `handleHistoryItemClick`: show the first entry with that id; an unknown id changes nothing. */
    method HistoryItemClick(id: string)
      modifies this`currentCrawl, this`viewRef
      ensures FindById(crawlHistory, id).Some? ==> currentCrawl == FindById(crawlHistory, id) && viewRef == Some(id)
      ensures FindById(crawlHistory, id).None? ==> currentCrawl == old(currentCrawl) && viewRef == old(viewRef)
      ensures old(Valid()) ==> Valid()
    {
      var selected := FindById(crawlHistory, id);
      if selected.Some? {
        currentCrawl := selected;
        viewRef := Some(id);
      }
    }
  }

  /** In a valid state the crawl on display is an entry of the history, as the sidebar highlights it. */
  lemma {:induction false} CurrentIsInHistory(history: seq<CrawlResult>, viewRef: Option<string>, current: Option<CrawlResult>)
    requires current.Some? ==> viewRef.Some? && FindById(history, viewRef.value) == current
    ensures current.Some? ==> current.value in history && current.value.id == viewRef.value
  {
  }

  /** Submitting "example.com" to a freshly mounted page with no stored history. */
  method SubmitExample(now: string, date: string)
    returns (shown: CrawlResult, history: seq<CrawlResult>, view: Option<string>, stored: Option<seq<CrawlResult>>)
    ensures history == [shown] && stored == Some(history) && view == Some(now)
    ensures shown.id == now && shown.url == "https://example.com" && shown.date == date
    ensures |shown.results| == 9
    ensures ResultsDisplay.WorkingCount(shown.results) == 5 && ResultsDisplay.BrokenCount(shown.results) == 4
  {
    assert "example.com"[..7] != "http://" && "example.com"[..8] != "https://" by {
      assert "example.com"[0] == 'e';
    }
    assert NormalizeUrl("example.com") == "https://example.com";
    Actions.CrawlCounts("https://example.com");
    var store := new Store(None, None);
    store.Mount();
    store.Submit("example.com", false, now, date);
    shown := store.currentCrawl.value;
    history := store.crawlHistory;
    view := store.viewRef;
    stored := store.storage;
  }
}
