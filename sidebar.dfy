/**
 * The history sidebar: the crawl history grouped by a date key, groups in the order their key
 * first occurs, and the highlight of the entry named by the view reference. The date key
 * (`new Date(item.date).toLocaleDateString()`) is locale dependent and is a parameter here.
 */
module Sidebar {
  import opened Records
  import opened Seqs
  import LinkChecker

  /** `Object.keys(groupedHistory)`: each key once, in the order the loop first meets it. */
  function GroupKeys(history: seq<CrawlResult>, dateKey: string -> string): (keys: seq<string>)
    ensures |keys| <= |history|
    ensures forall i :: 0 <= i < |keys| ==> exists j :: 0 <= j < |history| && dateKey(history[j].date) == keys[i]
  {
    if history == [] then []
    else
      var keys := GroupKeys(history[..|history| - 1], dateKey);
      var key := dateKey(history[|history| - 1].date);
      if key in keys then keys else keys + [key]
  }

  /** `groupedHistory[key]`: the entries with that date key, in history order. */
  function GroupItems(history: seq<CrawlResult>, dateKey: string -> string, key: string): (items: seq<CrawlResult>)
    ensures |items| <= |history|
    ensures forall x :: x in items ==> dateKey(x.date) == key
  {
    if history == [] then []
    else
      var last := history[|history| - 1];
      GroupItems(history[..|history| - 1], dateKey, key) + (if dateKey(last.date) == key then [last] else [])
  }

  /** The number of entries over the groups named by `keys`. */
  function TotalSize(keys: seq<string>, history: seq<CrawlResult>, dateKey: string -> string): nat
  {
    if keys == [] then 0 else |GroupItems(history, dateKey, keys[0])| + TotalSize(keys[1..], history, dateKey)
  }

  /** The `forEach` loop that builds `groupedHistory`. */
  method GroupHistory(history: seq<CrawlResult>, dateKey: string -> string)
    returns (keys: seq<string>, grouped: map<string, seq<CrawlResult>>)
    ensures keys == GroupKeys(history, dateKey) && Distinct(keys)
    ensures forall key :: key in grouped <==> key in keys
    ensures forall key :: key in grouped ==> grouped[key] == GroupItems(history, dateKey, key) && grouped[key] != []
    ensures keys == [] <==> history == []
  {
    keys, grouped := [], map[];
    var i := 0;
    while i < |history|
      invariant 0 <= i <= |history|
      invariant keys == GroupKeys(history[..i], dateKey)
      invariant forall key :: key in grouped <==> key in keys
      invariant forall key :: key in grouped ==> grouped[key] == GroupItems(history[..i], dateKey, key)
    {
      var item := history[i];
      var date := dateKey(item.date);
      GroupStep(history, dateKey, i);
      if date !in grouped {
        NonEmptyIffKey(history[..i], dateKey, date);
        grouped := grouped[date := []];
        keys := keys + [date];
      }
      grouped := grouped[date := grouped[date] + [item]];
      i := i + 1;
    }
    assert history[..i] == history;
    KeysDistinct(history, dateKey);
    forall key | key in grouped
      ensures grouped[key] != []
    {
      NonEmptyIffKey(history, dateKey, key);
    }
    EmptyHistoryNoGroups(history, dateKey);
  }

  /** One step of the loop: entry `i` extends the keys and the groups of the prefix before it. */
  lemma GroupStep(history: seq<CrawlResult>, dateKey: string -> string, i: nat)
    requires i < |history|
    ensures GroupKeys(history[..i + 1], dateKey) ==
            (var key := dateKey(history[i].date);
             var keys := GroupKeys(history[..i], dateKey);
             if key in keys then keys else keys + [key])
    ensures forall k :: (GroupItems(history[..i + 1], dateKey, k) ==
                         GroupItems(history[..i], dateKey, k) + (if dateKey(history[i].date) == k then [history[i]] else []))
  {
    assert history[..i + 1][..i] == history[..i];
  }

  /** A group is non-empty exactly when its key is one of the group keys. */
  lemma {:induction false} NonEmptyIffKey(history: seq<CrawlResult>, dateKey: string -> string, key: string)
    ensures GroupItems(history, dateKey, key) != [] <==> key in GroupKeys(history, dateKey)
  {
    if history != [] {
      NonEmptyIffKey(history[..|history| - 1], dateKey, key);
    }
  }

  lemma {:induction false} KeysDistinct(history: seq<CrawlResult>, dateKey: string -> string)
    ensures Distinct(GroupKeys(history, dateKey))
  {
    if history != [] {
      KeysDistinct(history[..|history| - 1], dateKey);
    }
  }

  /** The group keys are exactly the date keys of the history's entries. */
  lemma {:induction false} KeysAreItemKeys(history: seq<CrawlResult>, dateKey: string -> string, key: string)
    ensures key in GroupKeys(history, dateKey) <==> exists item :: item in history && dateKey(item.date) == key
  {
    if history != [] {
      var init := history[..|history| - 1];
      assert history == init + [history[|history| - 1]];
      KeysAreItemKeys(init, dateKey, key);
    }
  }

  /** An entry lands in exactly one group: the one whose key is its own date key. */
  lemma {:induction false} GroupMembership(history: seq<CrawlResult>, dateKey: string -> string, key: string, item: CrawlResult)
    ensures item in GroupItems(history, dateKey, key) <==> item in history && dateKey(item.date) == key
  {
    if history != [] {
      var init := history[..|history| - 1];
      assert history == init + [history[|history| - 1]];
      GroupMembership(init, dateKey, key, item);
    }
  }

  /** Inside a group the entries keep their relative order from the history. */
  lemma {:induction false} GroupKeepsOrder(history: seq<CrawlResult>, dateKey: string -> string, key: string)
    ensures IsSubsequence(GroupItems(history, dateKey, key), history)
  {
    if history != [] {
      var init := history[..|history| - 1];
      var g := GroupItems(history, dateKey, key);
      GroupKeepsOrder(init, dateKey, key);
      if dateKey(history[|history| - 1].date) == key {
        assert g[..|g| - 1] == GroupItems(init, dateKey, key);
      } else {
        assert g == GroupItems(init, dateKey, key);
      }
    }
  }

  /** Appending an entry adds one to the total of a key list that contains its key (once). */
  lemma {:induction false} TotalSizeAppendItem(keys: seq<string>, history: seq<CrawlResult>, dateKey: string -> string, item: CrawlResult)
    requires Distinct(keys)
    ensures TotalSize(keys, history + [item], dateKey) ==
            TotalSize(keys, history, dateKey) + (if dateKey(item.date) in keys then 1 else 0)
  {
    assert (history + [item])[..|history|] == history;
    if keys != [] {
      TotalSizeAppendItem(keys[1..], history, dateKey, item);
      assert dateKey(item.date) in keys <==> dateKey(item.date) == keys[0] || dateKey(item.date) in keys[1..];
    }
  }

  lemma {:induction false} TotalSizeAppendKey(keys: seq<string>, history: seq<CrawlResult>, dateKey: string -> string, key: string)
    ensures TotalSize(keys + [key], history, dateKey) == TotalSize(keys, history, dateKey) + |GroupItems(history, dateKey, key)|
  {
    if keys != [] {
      assert (keys + [key])[1..] == keys[1..] + [key];
      TotalSizeAppendKey(keys[1..], history, dateKey, key);
    }
  }

  /** The group sizes add up to the length of the history. */
  lemma {:induction false} GroupsPartitionHistory(history: seq<CrawlResult>, dateKey: string -> string)
    ensures TotalSize(GroupKeys(history, dateKey), history, dateKey) == |history|
  {
    if history != [] {
      var init := history[..|history| - 1];
      var item := history[|history| - 1];
      var key := dateKey(item.date);
      var keys := GroupKeys(init, dateKey);
      assert history == init + [item];
      GroupsPartitionHistory(init, dateKey);
      KeysDistinct(init, dateKey);
      TotalSizeAppendItem(keys, init, dateKey, item);
      if key !in keys {
        TotalSizeAppendKey(keys, history, dateKey, key);
        NonEmptyIffKey(init, dateKey, key);
      }
    }
  }

  /** No history, no groups: the sidebar shows "No crawl history yet". */
  lemma EmptyHistoryNoGroups(history: seq<CrawlResult>, dateKey: string -> string)
    ensures GroupKeys(history, dateKey) == [] <==> history == []
  {
  }

  /** `selectedId === item.id` */
  predicate IsHighlighted(selectedId: Option<string>, item: CrawlResult)
    ensures IsHighlighted(selectedId, item) ==> selectedId.Some? && selectedId.value == item.id
    ensures selectedId.None? ==> !IsHighlighted(selectedId, item)
  {
    selectedId == Some(item.id)
  }

  /**
   * The crawl the view reference names is highlighted, in the group of its own date key, and
   * every highlighted entry carries the selected id.
   */
  lemma SelectedCrawlIsHighlighted(history: seq<CrawlResult>, dateKey: string -> string, id: string)
    ensures LinkChecker.FindById(history, id).Some? ==>
      var c := LinkChecker.FindById(history, id).value;
      IsHighlighted(Some(id), c) && c in GroupItems(history, dateKey, dateKey(c.date))
    ensures forall item :: IsHighlighted(Some(id), item) ==> item.id == id
    ensures forall item: CrawlResult :: item.id == id ==> IsHighlighted(Some(id), item)
    ensures forall item :: !IsHighlighted(None, item)
  {
    var r := LinkChecker.FindById(history, id);
    if r.Some? {
      GroupMembership(history, dateKey, dateKey(r.value.date), r.value);
    }
  }
}
