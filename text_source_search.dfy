/** `FindTextSources` in search_sites_by_text_serper.py, apart from its
    network calls: wrapping single search inputs into a list, and the
    assembly in `find_text_source` of one `FoundWebSource` per result page
    from the fetch tasks, collected from `asyncio.wait` in completion
    order, decoded by task name and sorted back into page order. */
module TextSourceSearch {
  import opened Wrappers
  import opened PyBuiltins
  import opened Decimal
  import opened Calendar
  import opened DateNormalizer
  import opened Similarity

  /** The Python values `_to_list_if_single` distinguishes. */
  datatype PyValue =
    | PyInt(i: int)
    | PyBool(b: bool)
    | PyFloat(f: real)
    | PyStr(s: string)
    | PyBytes(bytes: seq<bv8>)
    | PyDict(items: seq<(PyValue, PyValue)>)
    | PyList(elements: seq<PyValue>)
    | PyTuple(members: seq<PyValue>)
    | PyNone

  /** `isinstance(value, (int, str, float, bytes, dict))`; `bool` is a
      subclass of `int`, so a boolean counts too. */
  predicate IsSingle(v: PyValue)
  {
    v.PyInt? || v.PyBool? || v.PyFloat? || v.PyStr? || v.PyBytes? || v.PyDict?
  }

  /** `_to_list_if_single`: a single value becomes a one-element list; any
      other value comes back unchanged. */
  function ToListIfSingle(v: PyValue): (r: PyValue)
    ensures !IsSingle(r)
    ensures IsSingle(v) ==> r == PyList([v])
    ensures !IsSingle(v) ==> r == v
  {
    if IsSingle(v) then PyList([v]) else v
  }

  /** Wrapping twice wraps once. */
  lemma ToListIfSingleIdempotent(v: PyValue)
    ensures ToListIfSingle(ToListIfSingle(v)) == ToListIfSingle(v)
  {
  }

  /** One entry of the search result's `pages`. */
  datatype Page = Page(link: string, title: Option<string>, desc: Option<string>, date: Option<string>)

  /** The JSON body of a successful scrape; only its `text` key is read,
      and `None` stands for a missing or null `text`. */
  datatype Content = Content(text: Option<string>)

  /** How a fetch task ended: the value `get_website_content_serper`
      returned (`None` for a response that was not OK), or an exception. */
  datatype Fetch = Returned(content: Option<Content>) | Raised

  /** A fetch task, named `str(idx)` after the position of its page. */
  datatype Task = Task(name: string, fetch: Fetch)

  /** The record built for one page. `websiteDate` holds the value after
      the field validator has run; `searchedAt` is the clock reading. */
  datatype FoundWebSource = FoundWebSource(
    text: string,
    searchedByText: string,
    queryUrl: string,
    websiteLink: string,
    index: int,
    websiteTitle: Option<string>,
    websiteDescription: Option<string>,
    websiteText: Option<string>,
    sourceScore: Option<real>,
    websiteDate: WebsiteDate,
    searchedAt: int)

  /** Why `find_text_source` raises. */
  datatype SearchError =
    | NoTasks                                // ValueError: `asyncio.wait` of an empty list
    | FetchRaised(taskName: string)          // `task.result()` re-raises the fetch's exception
    | MissingText(page: int)                 // TypeError: `len(None)` in `source_score`
    | NoPatches(page: int)                   // ValueError: `max` of no patch pairs
    | BadDate(page: int, cause: DateError)   // the `website_date` validator failed

  /** The tasks `find_text_source` creates, one per page, in page order. */
  function LaunchTasks(outcomes: seq<Fetch>): (r: seq<Task>)
    ensures |r| == |outcomes|
    ensures forall i :: 0 <= i < |r| ==> r[i].fetch == outcomes[i]
  {
    seq(|outcomes|, i requires 0 <= i < |outcomes| => Task(NatToString(i), outcomes[i]))
  }

  /** `int(task.get_name())` recovers the position of every task's page. */
  lemma TaskNamesDecode(outcomes: seq<Fetch>, i: nat)
    requires i < |outcomes|
    ensures ParseInt(LaunchTasks(outcomes)[i].name) == Some(i)
  {
    ParseNatToString(i);
  }

  /** A launched task is the one at the position its name decodes to. */
  lemma LaunchedTaskPosition(outcomes: seq<Fetch>, t: Task)
    requires t in LaunchTasks(outcomes)
    ensures ParseInt(t.name).Some? && ParseInt(t.name).value < |outcomes|
    ensures LaunchTasks(outcomes)[ParseInt(t.name).value] == t
  {
    var i :| 0 <= i < |outcomes| && LaunchTasks(outcomes)[i] == t;
    TaskNamesDecode(outcomes, i);
  }

  /** No two launched tasks are equal, since their names differ. */
  lemma LaunchedDistinct(outcomes: seq<Fetch>, i: nat, j: nat)
    requires i < j < |outcomes|
    ensures LaunchTasks(outcomes)[i] != LaunchTasks(outcomes)[j]
  {
    TaskNamesDecode(outcomes, i);
    TaskNamesDecode(outcomes, j);
  }

  /** Each launched task occurs once. */
  lemma {:induction false} LaunchedOnce(outcomes: seq<Fetch>, t: Task, n: nat)
    requires n <= |outcomes|
    ensures multiset(LaunchTasks(outcomes)[..n])[t] <= 1
  {
    var ts := LaunchTasks(outcomes);
    if n > 0 {
      LaunchedOnce(outcomes, t, n - 1);
      assert ts[..n] == ts[..n - 1] + [ts[n - 1]];
      if t == ts[n - 1] {
        forall j | 0 <= j < n - 1 ensures ts[j] != t {
          LaunchedDistinct(outcomes, j, n - 1);
        }
        assert t !in ts[..n - 1];
      }
    }
  }

  /** Since every task occurs once, a finished task is not also pending. */
  lemma DoneNotPending(outcomes: seq<Fetch>, done: seq<Task>, pending: seq<Task>, t: Task)
    requires multiset(done + pending) == multiset(LaunchTasks(outcomes))
    requires t in done
    ensures t !in pending
  {
    LaunchedOnce(outcomes, t, |outcomes|);
    assert LaunchTasks(outcomes)[..|outcomes|] == LaunchTasks(outcomes);
    assert multiset(done + pending)[t] == multiset(done)[t] + multiset(pending)[t];
    assert multiset(pending)[t] == 0;
  }

  /** The pair the collecting loops append for a task: its decoded name,
      and what it returned if it finished (a pending task gives `None`).
      A name `int` cannot read never occurs (`LaunchedTaskPosition`); it
      would get the key -1. */
  function Entry(pending: seq<Task>, t: Task): (int, Option<Content>)
  {
    (if ParseInt(t.name).Some? then ParseInt(t.name).value else -1,
     if t in pending || t.fetch.Raised? then None else t.fetch.content)
  }

  /** The pairs collected for a sequence of tasks. */
  function Entries(pending: seq<Task>, ts: seq<Task>): (r: seq<(int, Option<Content>)>)
    ensures |r| == |ts|
    ensures forall i :: 0 <= i < |ts| ==> r[i] == Entry(pending, ts[i])
  {
    seq(|ts|, i requires 0 <= i < |ts| => Entry(pending, ts[i]))
  }

  /** Collecting one more task appends its pair. */
  lemma EntriesSnoc(pending: seq<Task>, ts: seq<Task>, t: Task)
    ensures Entries(pending, ts + [t]) == Entries(pending, ts) + [Entry(pending, t)]
  {
  }

  /** What the first collecting loop appends for a finished task. */
  lemma DoneEntry(outcomes: seq<Fetch>, done: seq<Task>, pending: seq<Task>, task: Task)
    requires multiset(done + pending) == multiset(LaunchTasks(outcomes))
    requires task in done
    ensures ParseInt(task.name).Some?
    ensures task.fetch.Returned? ==> Entry(pending, task) == (ParseInt(task.name).value, task.fetch.content)
  {
    assert task in multiset(done + pending);
    LaunchedTaskPosition(outcomes, task);
    DoneNotPending(outcomes, done, pending, task);
  }

  /** What the second collecting loop appends for a pending task. */
  lemma PendingEntry(outcomes: seq<Fetch>, done: seq<Task>, pending: seq<Task>, task: Task)
    requires multiset(done + pending) == multiset(LaunchTasks(outcomes))
    requires task in pending
    ensures ParseInt(task.name).Some?
    ensures Entry(pending, task) == (ParseInt(task.name).value, None)
  {
    assert task in multiset(done + pending);
    LaunchedTaskPosition(outcomes, task);
  }

  /** The content `find_text_source` pairs with page `i`: what its task
      returned, or `None` when the task was still pending. */
  function ContentAt(outcomes: seq<Fetch>, pending: seq<Task>, i: nat): Option<Content>
    requires i < |outcomes|
  {
    if Task(NatToString(i), outcomes[i]) in pending || outcomes[i].Raised? then None
    else outcomes[i].content
  }

  /** `asyncio.wait` without a timeout leaves nothing pending; then page `i`
      gets exactly what its fetch returned. */
  lemma NothingPending(outcomes: seq<Fetch>, i: nat)
    requires i < |outcomes| && outcomes[i].Returned?
    ensures ContentAt(outcomes, [], i) == outcomes[i].content
  {
  }

  /** The collected pairs in page order. */
  function Collected(outcomes: seq<Fetch>, pending: seq<Task>): (r: seq<(int, Option<Content>)>)
    ensures |r| == |outcomes|
    ensures forall i :: 0 <= i < |r| ==> r[i] == (i, ContentAt(outcomes, pending, i))
  {
    seq(|outcomes|, i requires 0 <= i < |outcomes| => (i, ContentAt(outcomes, pending, i)))
  }

  /** However `asyncio.wait` splits and orders the tasks, the collected
      pairs, once sorted by index, are the pairs in page order. */
  lemma {:induction false} SortRestoresPageOrder(outcomes: seq<Fetch>, done: seq<Task>, pending: seq<Task>)
    requires multiset(done + pending) == multiset(LaunchTasks(outcomes))
    ensures SortByKey(Entries(pending, done + pending)) == Collected(outcomes, pending)
  {
    var entry := t => Entry(pending, t);
    var launched := LaunchTasks(outcomes);
    MapSeqMultiset(entry, done + pending, launched);
    assert MapSeq(entry, done + pending) == Entries(pending, done + pending);
    forall i | 0 <= i < |launched|
      ensures MapSeq(entry, launched)[i] == Collected(outcomes, pending)[i]
    {
      TaskNamesDecode(outcomes, i);
    }
    assert MapSeq(entry, launched) == Collected(outcomes, pending);
    var sorted := SortByKey(Entries(pending, done + pending));
    SortedByKeyUnique(sorted, Collected(outcomes, pending), 0);
  }

  /** The fetched text and its score for one page; the score is computed
      whenever content came back, even when it has no text. */
  function TextAndScore(dup: Scorer, text: string, index: int, content: Option<Content>)
    : (r: Result<(Option<string>, Option<real>), SearchError>)
    ensures r.Success? <==>
      (content.None? || (content.value.text.Some? && |text| > MinimumComparisonPatch
                         && |content.value.text.value| > MinimumComparisonPatch))
    ensures r.Success? && content.None? ==> r.value == (None, None)
    ensures r.Success? && content.Some? ==> r.value.0 == content.value.text && r.value.1.Some?
    ensures r.Success? && content.Some? ==>
      r.value.1 == SourceScore(dup, text, content.value.text.value, PatchSize, MinimumComparisonPatch)
    ensures r.Failure? ==> r.error == MissingText(index) || r.error == NoPatches(index)
    ensures r.Failure? ==>
      (r.error == MissingText(index) <==>
         content.Some? && content.value.text.None? && |text| > MinimumComparisonPatch)
  {
    match content
    case None => Success((None, None))
    case Some(c) =>
      match c.text
      case None => Failure(if |text| > MinimumComparisonPatch then MissingText(index) else NoPatches(index))
      case Some(w) =>
        SourceScoreIsBestPair(dup, text, w, PatchSize, MinimumComparisonPatch);
        match SourceScore(dup, text, w, PatchSize, MinimumComparisonPatch)
        case None => Failure(NoPatches(index))
        case Some(score) => Success((Some(w), Some(score)))
  }

  /** `page.get('date')` as the validator receives it. */
  function PageDate(page: Page): WebsiteDate
  {
    if page.date.Some? then DateText(page.date.value) else NoDate
  }

  /** The `FoundWebSource(...)` construction in the zip loop, with its
      score and its date validation. */
  function BuildSource(dup: Scorer, text: string, searchedByText: string, queryUrl: string, page: Page,
                       index: int, content: Option<Content>, today: Date, searchedAt: int)
    : (r: Result<FoundWebSource, SearchError>)
    requires ValidDate(today)
    ensures r.Success? <==>
      (TextAndScore(dup, text, index, content).Success? && ValidateWebsiteDate(PageDate(page), today).Success?)
    ensures r.Success? ==>
      (&& r.value.index == index && r.value.websiteLink == page.link
       && r.value.websiteTitle == page.title && r.value.websiteDescription == page.desc
       && r.value.text == text && r.value.searchedByText == searchedByText
       && r.value.queryUrl == queryUrl && r.value.searchedAt == searchedAt)
    ensures r.Success? ==>
      (r.value.websiteText.None? <==> content.None?) && (r.value.sourceScore.None? <==> content.None?)
    ensures r.Success? && content.Some? ==>
      (&& r.value.websiteText == content.value.text
       && r.value.sourceScore == SourceScore(dup, text, content.value.text.value, PatchSize, MinimumComparisonPatch))
    ensures r.Success? ==> !r.value.websiteDate.DateText? && (r.value.websiteDate.NoDate? <==> page.date.None?)
    ensures r.Success? ==> r.value.websiteDate == ValidateWebsiteDate(PageDate(page), today).value
  {
    match TextAndScore(dup, text, index, content)
    case Failure(e) => Failure(e)
    case Success(ts) =>
      match ValidateWebsiteDate(PageDate(page), today)
      case Failure(e) => Failure(BadDate(index, e))
      case Success(d) =>
        Success(FoundWebSource(text, searchedByText, queryUrl, page.link, index, page.title, page.desc,
                               ts.0, ts.1, d, searchedAt))
  }

  /** The two collecting loops of `find_text_source`: a pair for every
      finished task, whose result is re-raised if the fetch failed, then a
      pair with `None` for every pending task. */
  method CollectOutcomes(outcomes: seq<Fetch>, done: seq<Task>, pending: seq<Task>)
    returns (r: Result<seq<(int, Option<Content>)>, SearchError>)
    requires multiset(done + pending) == multiset(LaunchTasks(outcomes))
    ensures r.Success? <==> forall t :: t in done ==> t.fetch.Returned?
    ensures r.Success? ==> r.value == Entries(pending, done + pending)
  {
    var pagesContent: seq<(int, Option<Content>)> := [];
    for k := 0 to |done|
      invariant pagesContent == Entries(pending, done[..k])
      invariant forall j :: 0 <= j < k ==> done[j].fetch.Returned?
    {
      var task := done[k];
      DoneEntry(outcomes, done, pending, task);
      var index := ParseInt(task.name).value;
      if task.fetch.Raised? {
        return Failure(FetchRaised(task.name));
      }
      assert done[..k + 1] == done[..k] + [task];
      EntriesSnoc(pending, done[..k], task);
      pagesContent := pagesContent + [(index, task.fetch.content)];
    }
    assert done[..|done|] == done;
    for k := 0 to |pending|
      invariant pagesContent == Entries(pending, done + pending[..k])
    {
      var task := pending[k];
      PendingEntry(outcomes, done, pending, task);
      var index := ParseInt(task.name).value;
      assert done + pending[..k + 1] == done + pending[..k] + [task];
      EntriesSnoc(pending, done + pending[..k], task);
      pagesContent := pagesContent + [(index, None)];
    }
    assert pending[..|pending|] == pending;
    return Success(pagesContent);
  }

  /** The record for page `i` when its task's content is paired with it. */
  function SourceAt(dup: Scorer, text: string, searchedByText: string, queryUrl: string,
                    pages: seq<Page>, outcomes: seq<Fetch>, pending: seq<Task>,
                    today: Date, searchedAt: int, i: nat): Result<FoundWebSource, SearchError>
    requires i < |pages| == |outcomes| && ValidDate(today)
  {
    BuildSource(dup, text, searchedByText, queryUrl, pages[i], i, ContentAt(outcomes, pending, i), today, searchedAt)
  }

  /** Page `i` paired with its own task's content gives its record. */
  lemma PairedSource(dup: Scorer, text: string, searchedByText: string, queryUrl: string,
                     pages: seq<Page>, outcomes: seq<Fetch>, pending: seq<Task>,
                     today: Date, searchedAt: int, i: nat, content: Option<Content>)
    requires i < |pages| == |outcomes| && ValidDate(today)
    requires content == ContentAt(outcomes, pending, i)
    ensures BuildSource(dup, text, searchedByText, queryUrl, pages[i], i, content, today, searchedAt)
         == SourceAt(dup, text, searchedByText, queryUrl, pages, outcomes, pending, today, searchedAt, i)
  {
  }

  /** The zip loop of `find_text_source` over the sorted pairs: a record
      for each page, stopping at the first that cannot be built. */
  method ZipSources(dup: Scorer, text: string, searchedByText: string, queryUrl: string,
                    pages: seq<Page>, outcomes: seq<Fetch>, pending: seq<Task>,
                    today: Date, searchedAt: int, pagesContent: seq<(int, Option<Content>)>)
    returns (r: Result<seq<FoundWebSource>, SearchError>)
    requires |outcomes| == |pages| && ValidDate(today)
    requires pagesContent == Collected(outcomes, pending)
    ensures r.Success? <==> forall i :: 0 <= i < |pages| ==>
      SourceAt(dup, text, searchedByText, queryUrl, pages, outcomes, pending, today, searchedAt, i).Success?
    ensures r.Success? ==>
      (&& |r.value| == |pages|
       && forall i :: 0 <= i < |pages| ==>
            r.value[i] == SourceAt(dup, text, searchedByText, queryUrl, pages, outcomes, pending, today, searchedAt, i).value)
  {
    var sources: seq<FoundWebSource> := [];
    for i := 0 to |pages|
      invariant |sources| == i
      invariant forall j :: 0 <= j < i ==>
        SourceAt(dup, text, searchedByText, queryUrl, pages, outcomes, pending, today, searchedAt, j) == Success(sources[j])
    {
      var (index, content) := pagesContent[i];
      assert index == i && content == ContentAt(outcomes, pending, i);
      var source := BuildSource(dup, text, searchedByText, queryUrl, pages[i], index, content, today, searchedAt);
      PairedSource(dup, text, searchedByText, queryUrl, pages, outcomes, pending, today, searchedAt, i, content);
      if source.Failure? {
        return Failure(source.error);
      }
      sources := sources + [source.value];
    }
    return Success(sources);
  }

  /** `find_text_source` after the search: `outcomes[i]` is how the fetch
      of page `i` ended, and `done` and `pending` are what `asyncio.wait`
      reports, in any order. `asyncio.wait` refuses an empty list of
      tasks, so a search without pages raises. Otherwise the collected
      pairs are sorted by index and zipped with the pages: one record per
      page, in page order, each built from its own page and its own task's
      content. */
  method FindTextSource(dup: Scorer, text: string, searchedByText: string, queryUrl: string,
                        pages: seq<Page>, outcomes: seq<Fetch>, done: seq<Task>, pending: seq<Task>,
                        today: Date, searchedAt: int)
    returns (r: Result<seq<FoundWebSource>, SearchError>)
    requires |outcomes| == |pages|
    requires multiset(done + pending) == multiset(LaunchTasks(outcomes))
    requires ValidDate(today)
    ensures |pages| == 0 ==> r == Failure(NoTasks)
    ensures r.Success? <==>
      (&& |pages| > 0
       && (forall t :: t in done ==> t.fetch.Returned?)
       && forall i :: 0 <= i < |pages| ==>
            SourceAt(dup, text, searchedByText, queryUrl, pages, outcomes, pending, today, searchedAt, i).Success?)
    ensures r.Success? ==>
      (&& |r.value| == |pages|
       && forall i :: 0 <= i < |pages| ==>
            r.value[i] == SourceAt(dup, text, searchedByText, queryUrl, pages, outcomes, pending, today, searchedAt, i).value)
  {
    if |pages| == 0 {
      return Failure(NoTasks);
    }
    var collected := CollectOutcomes(outcomes, done, pending);
    if collected.Failure? {
      return Failure(collected.error);
    }
    SortRestoresPageOrder(outcomes, done, pending);
    var pagesContent := SortByKey(collected.value);
    r := ZipSources(dup, text, searchedByText, queryUrl, pages, outcomes, pending, today, searchedAt, pagesContent);
  }
}
