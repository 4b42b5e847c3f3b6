/**
 * The collection loop of `_get_table_data`: each plugin URL is either set
 * aside as unknown (not a GitHub URL) or looked up on GitHub, skipped when
 * its repository was already collected, and otherwise downloaded. The two
 * network calls are parameters.
 */
module Collection {
  import opened Wrappers
  import Urls
  import Rows
  import Tables

  type Entry = (Rows.Details, Rows.Repository)

  /** What the loop has gathered so far: the unknown plugins and the collected repositories. */
  datatype Gathered = Gathered(unknown: seq<Tables.UnknownRow>, repositories: seq<Entry>)

  /**
   * What the loop computes from the state `(seen, acc)` onwards. A URL that
   * no GitHub pattern matches is unknown; otherwise its owner and name are
   * read from it, `fetch` gives the repository's details (raising on an HTTP
   * error), a repository whose `html_url` is in `seen` is skipped, and any
   * other is downloaded and collected.
   */
  function CollectFrom(plugins: seq<string>,
                       fetch: Urls.Request -> Result<Rows.Details>,
                       download: Rows.Details -> Result<Rows.Repository>,
                       seen: set<string>, acc: Gathered): Result<Gathered>
  {
    if plugins == [] then Ok(acc)
    else
      var url := plugins[0];
      if !Urls.IsGitHub(url) then
        CollectFrom(plugins[1..], fetch, download, seen,
                    acc.(unknown := acc.unknown + [Tables.UnknownRow(url)]))
      else
        match Urls.FromUrl(url)
        case Err(e) => Err(e)
        case Ok(request) =>
          match fetch(request)
          case Err(e) => Err(e)
          case Ok(details) =>
            if details.htmlUrl in seen then CollectFrom(plugins[1..], fetch, download, seen, acc)
            else
              match download(details)
              case Err(e) => Err(e)
              case Ok(repository) =>
                CollectFrom(plugins[1..], fetch, download, seen + {details.htmlUrl},
                            acc.(repositories := acc.repositories + [(details, repository)]))
  }

  /** `_get_table_data` as a value: the collected plugins, the repositories grouped into rows. */
  function TableData(plugins: seq<string>,
                     fetch: Urls.Request -> Result<Rows.Details>,
                     download: Rows.Details -> Result<Rows.Repository>): Result<Tables.Tables>
  {
    match CollectFrom(plugins, fetch, download, {}, Gathered([], []))
    case Err(e) => Err(e)
    case Ok(gathered) =>
      match Rows.RowsFrom(gathered.repositories, map[])
      case Err(e) => Err(e)
      case Ok(github) => Ok(Tables.Tables(github, gathered.unknown))
  }

  /**
   * `_get_table_data`: the loop over `plugins` with its `seen` set, then
   * `_get_github_table_rows` on the collected repositories.
   */
  method GetTableData(plugins: seq<string>,
                      fetch: Urls.Request -> Result<Rows.Details>,
                      download: Rows.Details -> Result<Rows.Repository>)
    returns (r: Result<Tables.Tables>)
    ensures r == TableData(plugins, fetch, download)
  {
    var unknown: seq<Tables.UnknownRow> := [];
    var repositories: seq<Entry> := [];
    var seen: set<string> := {};
    for i := 0 to |plugins|
      invariant CollectFrom(plugins, fetch, download, {}, Gathered([], []))
                == CollectFrom(plugins[i..], fetch, download, seen, Gathered(unknown, repositories))
    {
      assert plugins[i..][1..] == plugins[i + 1..];
      var url := plugins[i];
      if !Urls.IsGitHub(url) {
        unknown := unknown + [Tables.UnknownRow(url)];
        continue;
      }
      var request := Urls.FromUrl(url);
      if request.Err? {
        return Err(request.error);
      }
      var details := fetch(request.value);
      if details.Err? {
        return Err(details.error);
      }
      if details.value.htmlUrl in seen {
        continue;
      }
      seen := seen + {details.value.htmlUrl};
      var repository := download(details.value);
      if repository.Err? {
        return Err(repository.error);
      }
      repositories := repositories + [(details.value, repository.value)];
    }
    assert plugins[|plugins|..] == [];
    var github := Rows.GetGithubTableRows(repositories);
    if github.Err? {
      return Err(github.error);
    }
    return Ok(Tables.Tables(github.value, unknown));
  }

  /** The URLs no GitHub pattern matches, in input order. */
  function NotGitHub(plugins: seq<string>): (r: seq<string>)
    ensures |r| <= |plugins|
  {
    if plugins == [] then []
    else if Urls.IsGitHub(plugins[0]) then NotGitHub(plugins[1..])
    else [plugins[0]] + NotGitHub(plugins[1..])
  }

  function UrlsOf(rows: seq<Tables.UnknownRow>): (r: seq<string>)
    ensures |r| == |rows|
    ensures forall k :: 0 <= k < |rows| ==> r[k] == rows[k].url
  {
    if rows == [] then [] else [rows[0].url] + UrlsOf(rows[1..])
  }

  /** The `html_url`s of the collected repositories. */
  function HtmlUrls(entries: seq<Entry>): (r: set<string>)
    ensures forall k :: 0 <= k < |entries| ==> entries[k].0.htmlUrl in r
    ensures forall u :: u in r ==> exists k :: 0 <= k < |entries| && entries[k].0.htmlUrl == u
  {
    if entries == [] then {}
    else
      var rest := HtmlUrls(entries[1..]);
      assert forall k :: 1 <= k < |entries| ==> entries[k] == entries[1..][k - 1];
      {entries[0].0.htmlUrl} + rest
  }

  /** No two collected repositories share an `html_url`. */
  predicate DistinctHtmlUrls(entries: seq<Entry>) {
    forall i, j :: 0 <= i < j < |entries| ==> entries[i].0.htmlUrl != entries[j].0.htmlUrl
  }

  /** The loop's own invariant: `seen` holds exactly the `html_url`s collected, each once. */
  predicate Consistent(seen: set<string>, acc: Gathered) {
    seen == HtmlUrls(acc.repositories) && DistinctHtmlUrls(acc.repositories)
  }

  /**
   * What the loop promises from the state `(seen, acc)` onwards: on success,
   * the unknown plugins are exactly the non-GitHub URLs in input order, after
   * those already gathered; the repositories only grow and keep pairwise
   * distinct `html_url`s; and each plugin adds at most one row.
   */
  predicate Collected(plugins: seq<string>,
                      fetch: Urls.Request -> Result<Rows.Details>,
                      download: Rows.Details -> Result<Rows.Repository>,
                      seen: set<string>, acc: Gathered)
  {
    CollectFrom(plugins, fetch, download, seen, acc).Ok? ==>
      var out := CollectFrom(plugins, fetch, download, seen, acc).value;
      UrlsOf(out.unknown) == UrlsOf(acc.unknown) + NotGitHub(plugins) &&
      DistinctHtmlUrls(out.repositories) &&
      |acc.repositories| <= |out.repositories| &&
      |out.unknown| + |out.repositories| <= |acc.unknown| + |acc.repositories| + |plugins|
  }

  /** The loop keeps its promises from any state in which `seen` is in step with the repositories. */
  lemma {:induction false} CollectFromOk(plugins: seq<string>,
                                         fetch: Urls.Request -> Result<Rows.Details>,
                                         download: Rows.Details -> Result<Rows.Repository>,
                                         seen: set<string>, acc: Gathered)
    requires Consistent(seen, acc)
    ensures Collected(plugins, fetch, download, seen, acc)
  {
    if plugins == [] {
      assert NotGitHub(plugins) == [];
      assert UrlsOf(acc.unknown) + [] == UrlsOf(acc.unknown);
    } else {
      var url := plugins[0];
      var rest := plugins[1..];
      if !Urls.IsGitHub(url) {
        var next := acc.(unknown := acc.unknown + [Tables.UnknownRow(url)]);
        CollectFromOk(rest, fetch, download, seen, next);
        UnknownStep(plugins, fetch, download, seen, acc);
      } else if Urls.FromUrl(url).Ok? && fetch(Urls.FromUrl(url).value).Ok? {
        var details := fetch(Urls.FromUrl(url).value).value;
        if details.htmlUrl in seen {
          CollectFromOk(rest, fetch, download, seen, acc);
          SkipStep(plugins, fetch, download, seen, acc);
        } else if download(details).Ok? {
          var next := acc.(repositories := acc.repositories + [(details, download(details).value)]);
          AddFresh(seen, acc, details, download(details).value);
          CollectFromOk(rest, fetch, download, seen + {details.htmlUrl}, next);
          DownloadStep(plugins, fetch, download, seen, acc);
        }
      }
    }
  }

  /** A URL set aside as unknown comes next in the unknown rows. */
  lemma UnknownStep(plugins: seq<string>,
                    fetch: Urls.Request -> Result<Rows.Details>,
                    download: Rows.Details -> Result<Rows.Repository>,
                    seen: set<string>, acc: Gathered)
    requires plugins != [] && !Urls.IsGitHub(plugins[0])
    requires Collected(plugins[1..], fetch, download, seen,
                       acc.(unknown := acc.unknown + [Tables.UnknownRow(plugins[0])]))
    ensures Collected(plugins, fetch, download, seen, acc)
  {
    var url := plugins[0];
    UrlsOfSnoc(acc.unknown, Tables.UnknownRow(url));
    assert NotGitHub(plugins) == [url] + NotGitHub(plugins[1..]);
    assert UrlsOf(acc.unknown) + [url] + NotGitHub(plugins[1..]) == UrlsOf(acc.unknown) + NotGitHub(plugins);
  }

  /** A repository already collected adds nothing. */
  lemma SkipStep(plugins: seq<string>,
                 fetch: Urls.Request -> Result<Rows.Details>,
                 download: Rows.Details -> Result<Rows.Repository>,
                 seen: set<string>, acc: Gathered)
    requires plugins != [] && Urls.IsGitHub(plugins[0])
    requires Urls.FromUrl(plugins[0]).Ok? && fetch(Urls.FromUrl(plugins[0]).value).Ok?
    requires fetch(Urls.FromUrl(plugins[0]).value).value.htmlUrl in seen
    requires Collected(plugins[1..], fetch, download, seen, acc)
    ensures Collected(plugins, fetch, download, seen, acc)
  {
    assert NotGitHub(plugins) == NotGitHub(plugins[1..]);
  }

  /** A downloaded repository comes next in the repositories. */
  lemma DownloadStep(plugins: seq<string>,
                     fetch: Urls.Request -> Result<Rows.Details>,
                     download: Rows.Details -> Result<Rows.Repository>,
                     seen: set<string>, acc: Gathered)
    requires plugins != [] && Urls.IsGitHub(plugins[0])
    requires Urls.FromUrl(plugins[0]).Ok? && fetch(Urls.FromUrl(plugins[0]).value).Ok?
    requires var details := fetch(Urls.FromUrl(plugins[0]).value).value;
             details.htmlUrl !in seen && download(details).Ok? &&
             Collected(plugins[1..], fetch, download, seen + {details.htmlUrl},
                       acc.(repositories := acc.repositories + [(details, download(details).value)]))
    ensures Collected(plugins, fetch, download, seen, acc)
  {
    assert NotGitHub(plugins) == NotGitHub(plugins[1..]);
  }

  lemma UrlsOfSnoc(rows: seq<Tables.UnknownRow>, row: Tables.UnknownRow)
    ensures UrlsOf(rows + [row]) == UrlsOf(rows) + [row.url]
  {
  }

  /** Collecting a repository whose `html_url` was not seen keeps `seen` in step. */
  lemma AddFresh(seen: set<string>, acc: Gathered, details: Rows.Details, repository: Rows.Repository)
    requires Consistent(seen, acc) && details.htmlUrl !in seen
    ensures Consistent(seen + {details.htmlUrl},
                       acc.(repositories := acc.repositories + [(details, repository)]))
  {
    var entries := acc.repositories + [(details, repository)];
    var urls := HtmlUrls(entries);
    forall u | u in urls
      ensures u in seen + {details.htmlUrl}
    {
      var k :| 0 <= k < |entries| && entries[k].0.htmlUrl == u;
      if k < |acc.repositories| {
        assert entries[k] == acc.repositories[k];
      }
    }
    forall u | u in seen + {details.htmlUrl}
      ensures u in urls
    {
      if u != details.htmlUrl {
        var k :| 0 <= k < |acc.repositories| && acc.repositories[k].0.htmlUrl == u;
        assert entries[k] == acc.repositories[k];
      } else {
        assert entries[|entries| - 1] == (details, repository);
      }
    }
    forall i, j | 0 <= i < j < |entries|
      ensures entries[i].0.htmlUrl != entries[j].0.htmlUrl
    {
      assert entries[i] == acc.repositories[i];
      if j == |entries| - 1 {
        assert acc.repositories[i].0.htmlUrl in HtmlUrls(acc.repositories);
      } else {
        assert entries[j] == acc.repositories[j];
      }
    }
  }

  /**
   * `_get_table_data`'s promises: the unknown rows are the non-GitHub URLs
   * in input order, the collected repositories have pairwise-distinct
   * `html_url`s, and no plugin yields both an unknown row and a repository.
   */
  lemma CollectOk(plugins: seq<string>,
                  fetch: Urls.Request -> Result<Rows.Details>,
                  download: Rows.Details -> Result<Rows.Repository>)
    ensures CollectFrom(plugins, fetch, download, {}, Gathered([], [])).Ok? ==>
              var out := CollectFrom(plugins, fetch, download, {}, Gathered([], [])).value;
              UrlsOf(out.unknown) == NotGitHub(plugins) &&
              DistinctHtmlUrls(out.repositories) &&
              |out.unknown| + |out.repositories| <= |plugins|
  {
    assert HtmlUrls([]) == {};
    CollectFromOk(plugins, fetch, download, {}, Gathered([], []));
    assert UrlsOf([]) + NotGitHub(plugins) == NotGitHub(plugins);
  }

  /** A GitHub URL is never set aside as unknown. */
  lemma {:induction false} NotGitHubExcludes(plugins: seq<string>, url: string)
    ensures url in NotGitHub(plugins) <==> url in plugins && !Urls.IsGitHub(url)
  {
    if plugins != [] {
      NotGitHubExcludes(plugins[1..], url);
      assert plugins == [plugins[0]] + plugins[1..];
    }
  }

  /** Tables made from at least one unknown plugin are not empty. */
  lemma TableDataNotEmpty(plugins: seq<string>,
                          fetch: Urls.Request -> Result<Rows.Details>,
                          download: Rows.Details -> Result<Rows.Repository>)
    requires exists k :: 0 <= k < |plugins| && !Urls.IsGitHub(plugins[k])
    ensures TableData(plugins, fetch, download).Ok? ==> !Tables.IsEmpty(TableData(plugins, fetch, download).value)
  {
    CollectOk(plugins, fetch, download);
    var k :| 0 <= k < |plugins| && !Urls.IsGitHub(plugins[k]);
    NotGitHubExcludes(plugins, plugins[k]);
  }

  /** The URLs some GitHub pattern matches, in input order. */
  function GitHubOnly(plugins: seq<string>): (r: seq<string>)
    ensures |r| <= |plugins|
  {
    if plugins == [] then []
    else if Urls.IsGitHub(plugins[0]) then [plugins[0]] + GitHubOnly(plugins[1..])
    else GitHubOnly(plugins[1..])
  }

  /** A URL is kept exactly when it is listed and is a GitHub URL. */
  lemma {:induction false} GitHubOnlyMembers(plugins: seq<string>, url: string)
    ensures url in GitHubOnly(plugins) <==> url in plugins && Urls.IsGitHub(url)
  {
    if plugins != [] {
      GitHubOnlyMembers(plugins[1..], url);
      assert plugins == [plugins[0]] + plugins[1..];
    }
  }

  /** The owner and name can be read from `url` and the lookup of that repository succeeds. */
  predicate Resolves(url: string, fetch: Urls.Request -> Result<Rows.Details>) {
    Urls.FromUrl(url).Ok? && fetch(Urls.FromUrl(url).value).Ok?
  }

  /** The details the lookup of `url` gives. */
  function DetailsFor(url: string, fetch: Urls.Request -> Result<Rows.Details>): Rows.Details
    requires Resolves(url, fetch)
  {
    fetch(Urls.FromUrl(url).value).value
  }

  /** Every URL looked up in turn: the details in order, or the first error. */
  function LookupAll(urls: seq<string>, fetch: Urls.Request -> Result<Rows.Details>): Result<seq<Rows.Details>> {
    if urls == [] then Ok([])
    else
      match Urls.FromUrl(urls[0])
      case Err(e) => Err(e)
      case Ok(request) =>
        match fetch(request)
        case Err(e) => Err(e)
        case Ok(details) =>
          match LookupAll(urls[1..], fetch)
          case Err(e) => Err(e)
          case Ok(rest) => Ok([details] + rest)
  }

  /** The lookups succeed exactly when every URL resolves, and then give each URL's details in order. */
  lemma LookupAllValue(urls: seq<string>, fetch: Urls.Request -> Result<Rows.Details>)
    ensures LookupAll(urls, fetch).Ok? <==> forall k :: 0 <= k < |urls| ==> Resolves(urls[k], fetch)
    ensures LookupAll(urls, fetch).Ok? ==>
              |LookupAll(urls, fetch).value| == |urls| &&
              forall k :: 0 <= k < |urls| ==> LookupAll(urls, fetch).value[k] == DetailsFor(urls[k], fetch)
  {
    LookupAllOk(urls, fetch);
    LookupAllDetails(urls, fetch);
  }

  lemma {:induction false} LookupAllOk(urls: seq<string>, fetch: Urls.Request -> Result<Rows.Details>)
    ensures (forall k :: 0 <= k < |urls| ==> Resolves(urls[k], fetch)) ==> LookupAll(urls, fetch).Ok?
  {
    if urls != [] && forall k :: 0 <= k < |urls| ==> Resolves(urls[k], fetch) {
      var rest := urls[1..];
      forall k | 0 <= k < |rest|
        ensures Resolves(rest[k], fetch)
      {
        assert rest[k] == urls[k + 1];
      }
      LookupAllOk(rest, fetch);
      assert Resolves(urls[0], fetch);
    }
  }

  lemma {:induction false} LookupAllDetails(urls: seq<string>, fetch: Urls.Request -> Result<Rows.Details>)
    ensures LookupAll(urls, fetch).Ok? ==>
              (forall k :: 0 <= k < |urls| ==> Resolves(urls[k], fetch)) &&
              |LookupAll(urls, fetch).value| == |urls| &&
              forall k :: 0 <= k < |urls| ==> LookupAll(urls, fetch).value[k] == DetailsFor(urls[k], fetch)
  {
    if urls != [] && LookupAll(urls, fetch).Ok? {
      var rest := urls[1..];
      LookupAllDetails(rest, fetch);
      var value := LookupAll(urls, fetch).value;
      assert Resolves(urls[0], fetch) && LookupAll(rest, fetch).Ok?;
      var later := LookupAll(rest, fetch).value;
      assert value == [DetailsFor(urls[0], fetch)] + later;
      forall k | 0 <= k < |urls|
        ensures Resolves(urls[k], fetch) && value[k] == DetailsFor(urls[k], fetch)
      {
        if k > 0 {
          assert urls[k] == rest[k - 1];
          assert value[k] == later[k - 1];
        }
      }
    }
  }

  /**
   * The details of `ds` whose `html_url` is not in `seen`, each `html_url`
   * kept at its first occurrence only, in input order.
   */
  function FirstOccurrences(ds: seq<Rows.Details>, seen: set<string>): (r: seq<Rows.Details>)
    ensures |r| <= |ds|
  {
    if ds == [] then []
    else if ds[0].htmlUrl in seen then FirstOccurrences(ds[1..], seen)
    else [ds[0]] + FirstOccurrences(ds[1..], seen + {ds[0].htmlUrl})
  }

  /** Prepending one lookup: it is kept exactly when its `html_url` was not seen. */
  lemma FirstOccurrencesCons(d: Rows.Details, later: seq<Rows.Details>, seen: set<string>)
    ensures FirstOccurrences([d] + later, seen)
            == if d.htmlUrl in seen then FirstOccurrences(later, seen)
               else [d] + FirstOccurrences(later, seen + {d.htmlUrl})
  {
    assert ([d] + later)[0] == d && ([d] + later)[1..] == later;
  }

  /** What is kept comes from `ds`, was not seen before, and holds each `html_url` once. */
  lemma {:induction false} FirstOccurrencesFresh(ds: seq<Rows.Details>, seen: set<string>)
    ensures forall i :: 0 <= i < |FirstOccurrences(ds, seen)| ==>
              FirstOccurrences(ds, seen)[i].htmlUrl !in seen && FirstOccurrences(ds, seen)[i] in ds
    ensures forall i, j :: 0 <= i < j < |FirstOccurrences(ds, seen)| ==>
              FirstOccurrences(ds, seen)[i].htmlUrl != FirstOccurrences(ds, seen)[j].htmlUrl
  {
    if ds != [] {
      var u := ds[0].htmlUrl;
      var next := if u in seen then seen else seen + {u};
      var shift := if u in seen then 0 else 1;
      FirstOccurrencesFresh(ds[1..], next);
      var rest := FirstOccurrences(ds[1..], next);
      var r := FirstOccurrences(ds, seen);
      assert r == if u in seen then rest else [ds[0]] + rest;
      assert |r| == |rest| + shift;
      forall i | 0 <= i < |r|
        ensures r[i].htmlUrl !in seen && r[i] in ds
      {
        if i < shift {
          assert r[i] == ds[0];
        } else {
          assert r[i] == rest[i - shift];
          assert rest[i - shift] in ds[1..];
        }
      }
      forall i, j | 0 <= i < j < |r|
        ensures r[i].htmlUrl != r[j].htmlUrl
      {
        assert r[j] == rest[j - shift];
        if i < shift {
          assert rest[j - shift].htmlUrl !in next;
        } else {
          assert r[i] == rest[i - shift];
        }
      }
    }
  }

  /** Some entry of `ds` has `url` as its `html_url`. */
  predicate HasUrl(ds: seq<Rows.Details>, url: string) {
    exists i :: 0 <= i < |ds| && ds[i].htmlUrl == url
  }

  /** Every `html_url` of `ds` that was not seen before is kept. */
  lemma {:induction false} FirstOccurrencesCover(ds: seq<Rows.Details>, seen: set<string>)
    ensures forall k :: 0 <= k < |ds| && ds[k].htmlUrl !in seen ==>
              HasUrl(FirstOccurrences(ds, seen), ds[k].htmlUrl)
  {
    if ds != [] {
      var u := ds[0].htmlUrl;
      var next := if u in seen then seen else seen + {u};
      var shift := if u in seen then 0 else 1;
      FirstOccurrencesCover(ds[1..], next);
      var rest := FirstOccurrences(ds[1..], next);
      var r := FirstOccurrences(ds, seen);
      assert r == if u in seen then rest else [ds[0]] + rest;
      assert |r| == |rest| + shift;
      forall k | 0 <= k < |ds| && ds[k].htmlUrl !in seen
        ensures HasUrl(r, ds[k].htmlUrl)
      {
        if ds[k].htmlUrl == u {
          assert r[0] == ds[0];
        } else {
          assert ds[k] == ds[1..][k - 1];
          assert HasUrl(rest, ds[1..][k - 1].htmlUrl);
          var i :| 0 <= i < |rest| && rest[i].htmlUrl == ds[k].htmlUrl;
          assert r[i + shift] == rest[i];
        }
      }
    }
  }

  /** Each kept entry is the first of `ds` with its `html_url`. */
  lemma {:induction false} FirstOccurrencesFirst(ds: seq<Rows.Details>, seen: set<string>)
    ensures forall i :: 0 <= i < |FirstOccurrences(ds, seen)| ==>
              exists k :: 0 <= k < |ds| && ds[k] == FirstOccurrences(ds, seen)[i] &&
                          forall j :: 0 <= j < k ==> ds[j].htmlUrl != FirstOccurrences(ds, seen)[i].htmlUrl
  {
    if ds != [] {
      var u := ds[0].htmlUrl;
      var next := if u in seen then seen else seen + {u};
      var shift := if u in seen then 0 else 1;
      FirstOccurrencesFirst(ds[1..], next);
      FirstOccurrencesFresh(ds[1..], next);
      var rest := FirstOccurrences(ds[1..], next);
      var r := FirstOccurrences(ds, seen);
      assert r == if u in seen then rest else [ds[0]] + rest;
      assert |r| == |rest| + shift;
      forall i | 0 <= i < |r|
        ensures exists k :: 0 <= k < |ds| && ds[k] == r[i] &&
                            forall j :: 0 <= j < k ==> ds[j].htmlUrl != r[i].htmlUrl
      {
        if i < shift {
          assert ds[0] == r[i];
        } else {
          var x := rest[i - shift];
          assert x == r[i];
          assert x.htmlUrl !in next;
          var k :| 0 <= k < |ds[1..]| && ds[1..][k] == x &&
                   forall j :: 0 <= j < k ==> ds[1..][j].htmlUrl != x.htmlUrl;
          assert ds[k + 1] == x;
          forall j | 0 <= j < k + 1
            ensures ds[j].htmlUrl != x.htmlUrl
          {
            if j > 0 {
              assert ds[j] == ds[1..][j - 1];
            }
          }
        }
      }
    } else {
      assert FirstOccurrences(ds, seen) == [];
    }
  }

  /** The details of the collected repositories, in order. */
  function DetailsOf(entries: seq<Entry>): (r: seq<Rows.Details>)
    ensures |r| == |entries|
    ensures forall k :: 0 <= k < |entries| ==> r[k] == entries[k].0
  {
    if entries == [] then [] else [entries[0].0] + DetailsOf(entries[1..])
  }

  /** A GitHub URL that resolves puts its details in front of the later lookups. */
  lemma LookupsStep(plugins: seq<string>, fetch: Urls.Request -> Result<Rows.Details>)
    requires plugins != [] && Urls.IsGitHub(plugins[0]) && Resolves(plugins[0], fetch)
    requires LookupAll(GitHubOnly(plugins[1..]), fetch).Ok?
    ensures LookupAll(GitHubOnly(plugins), fetch)
            == Ok([DetailsFor(plugins[0], fetch)] + LookupAll(GitHubOnly(plugins[1..]), fetch).value)
  {
    var urls := GitHubOnly(plugins);
    assert urls == [plugins[0]] + GitHubOnly(plugins[1..]);
    assert urls[0] == plugins[0] && urls[1..] == GitHubOnly(plugins[1..]);
  }

  /** A repository collected in front of the later ones keeps the promises of `CollectRepositories`. */
  lemma AppendedFirst(acc: seq<Entry>, entry: Entry, out: seq<Entry>, later: seq<Rows.Details>,
                      download: Rows.Details -> Result<Rows.Repository>)
    requires |acc| + 1 <= |out| && out[..|acc| + 1] == acc + [entry]
    requires DetailsOf(out) == DetailsOf(acc + [entry]) + later
    requires forall j :: |acc| + 1 <= j < |out| ==> download(out[j].0) == Ok(out[j].1)
    requires download(entry.0) == Ok(entry.1)
    ensures |acc| <= |out| && out[..|acc|] == acc
    ensures DetailsOf(out) == DetailsOf(acc) + ([entry.0] + later)
    ensures forall j :: |acc| <= j < |out| ==> download(out[j].0) == Ok(out[j].1)
  {
    assert out[..|acc|] == out[..|acc| + 1][..|acc|];
    assert out[|acc|] == out[..|acc| + 1][|acc|] == entry;
    assert DetailsOf(acc + [entry]) == DetailsOf(acc) + [entry.0];
  }

  /**
   * From any state, on success the GitHub URLs all resolve; the repositories
   * gathered so far stay in front, followed by one entry for the first lookup
   * of each `html_url` not in `seen`, in input order, each with its download.
   */
  predicate Promise(plugins: seq<string>,
                    fetch: Urls.Request -> Result<Rows.Details>,
                    download: Rows.Details -> Result<Rows.Repository>,
                    seen: set<string>, acc: Gathered)
  {
    CollectFrom(plugins, fetch, download, seen, acc).Ok? ==>
      var out := CollectFrom(plugins, fetch, download, seen, acc).value.repositories;
      LookupAll(GitHubOnly(plugins), fetch).Ok? &&
      |acc.repositories| <= |out| && out[..|acc.repositories|] == acc.repositories &&
      DetailsOf(out) == DetailsOf(acc.repositories)
                        + FirstOccurrences(LookupAll(GitHubOnly(plugins), fetch).value, seen) &&
      forall j :: |acc.repositories| <= j < |out| ==> download(out[j].0) == Ok(out[j].1)
  }

  /** The state after a GitHub URL seen for the first time keeps the promise of the state before. */
  lemma FreshStep(plugins: seq<string>,
                  fetch: Urls.Request -> Result<Rows.Details>,
                  download: Rows.Details -> Result<Rows.Repository>,
                  seen: set<string>, acc: Gathered)
    requires plugins != [] && Urls.IsGitHub(plugins[0]) && Resolves(plugins[0], fetch)
    requires DetailsFor(plugins[0], fetch).htmlUrl !in seen
    requires download(DetailsFor(plugins[0], fetch)).Ok?
    requires var details := DetailsFor(plugins[0], fetch);
             Promise(plugins[1..], fetch, download, seen + {details.htmlUrl},
                     acc.(repositories := acc.repositories + [(details, download(details).value)]))
    ensures Promise(plugins, fetch, download, seen, acc)
  {
    var details := DetailsFor(plugins[0], fetch);
    var u := details.htmlUrl;
    var entry := (details, download(details).value);
    var next := acc.(repositories := acc.repositories + [entry]);
    if CollectFrom(plugins, fetch, download, seen, acc).Ok? {
      assert CollectFrom(plugins, fetch, download, seen, acc)
             == CollectFrom(plugins[1..], fetch, download, seen + {u}, next);
      var out := CollectFrom(plugins[1..], fetch, download, seen + {u}, next).value.repositories;
      var later := LookupAll(GitHubOnly(plugins[1..]), fetch).value;
      LookupsStep(plugins, fetch);
      FirstOccurrencesCons(details, later, seen);
      AppendedFirst(acc.repositories, entry, out, FirstOccurrences(later, seen + {u}), download);
    }
  }

  lemma {:induction false} CollectPromise(plugins: seq<string>,
                                          fetch: Urls.Request -> Result<Rows.Details>,
                                          download: Rows.Details -> Result<Rows.Repository>,
                                          seen: set<string>, acc: Gathered)
    ensures Promise(plugins, fetch, download, seen, acc)
  {
    if plugins == [] {
      assert acc.repositories[..|acc.repositories|] == acc.repositories;
      assert DetailsOf(acc.repositories) + [] == DetailsOf(acc.repositories);
    } else if !Urls.IsGitHub(plugins[0]) {
      CollectPromise(plugins[1..], fetch, download, seen,
                     acc.(unknown := acc.unknown + [Tables.UnknownRow(plugins[0])]));
    } else if Resolves(plugins[0], fetch) {
      var details := DetailsFor(plugins[0], fetch);
      var u := details.htmlUrl;
      if u in seen {
        CollectPromise(plugins[1..], fetch, download, seen, acc);
        if CollectFrom(plugins, fetch, download, seen, acc).Ok? {
          LookupsStep(plugins, fetch);
          FirstOccurrencesCons(details, LookupAll(GitHubOnly(plugins[1..]), fetch).value, seen);
        }
      } else if download(details).Ok? {
        CollectPromise(plugins[1..], fetch, download, seen + {u},
                       acc.(repositories := acc.repositories + [(details, download(details).value)]));
        FreshStep(plugins, fetch, download, seen, acc);
      }
    }
  }

  /**
   * From any state, on success the GitHub URLs all resolve; the repositories
   * gathered so far stay in front, followed by one entry for the first lookup
   * of each `html_url` not in `seen`, in input order, each with its download.
   */
  lemma CollectRepositories(plugins: seq<string>,
                            fetch: Urls.Request -> Result<Rows.Details>,
                            download: Rows.Details -> Result<Rows.Repository>,
                            seen: set<string>, acc: Gathered)
    ensures CollectFrom(plugins, fetch, download, seen, acc).Ok? ==>
              var out := CollectFrom(plugins, fetch, download, seen, acc).value.repositories;
              LookupAll(GitHubOnly(plugins), fetch).Ok? &&
              |acc.repositories| <= |out| && out[..|acc.repositories|] == acc.repositories &&
              DetailsOf(out) == DetailsOf(acc.repositories)
                                + FirstOccurrences(LookupAll(GitHubOnly(plugins), fetch).value, seen) &&
              forall j :: |acc.repositories| <= j < |out| ==> download(out[j].0) == Ok(out[j].1)
  {
    CollectPromise(plugins, fetch, download, seen, acc);
  }

  /**
   * `_get_table_data` collects exactly one repository per distinct
   * `html_url` of its GitHub URLs: on success every GitHub URL resolves, and
   * the collected details are the lookups' first occurrences, in input order,
   * each paired with its download.
   */
  lemma CollectedRepositories(plugins: seq<string>,
                              fetch: Urls.Request -> Result<Rows.Details>,
                              download: Rows.Details -> Result<Rows.Repository>)
    ensures CollectFrom(plugins, fetch, download, {}, Gathered([], [])).Ok? ==>
              var out := CollectFrom(plugins, fetch, download, {}, Gathered([], [])).value.repositories;
              LookupAll(GitHubOnly(plugins), fetch).Ok? &&
              DetailsOf(out) == FirstOccurrences(LookupAll(GitHubOnly(plugins), fetch).value, {}) &&
              forall j :: 0 <= j < |out| ==> download(out[j].0) == Ok(out[j].1)
  {
    CollectRepositories(plugins, fetch, download, {}, Gathered([], []));
    assert DetailsOf([]) == [];
  }

  /** A lookup whose `html_url` is kept names one of the collected repositories. */
  lemma {:induction false} KeptUrl(out: seq<Entry>, ds: seq<Rows.Details>, k: nat)
    requires DetailsOf(out) == FirstOccurrences(ds, {}) && k < |ds|
    ensures ds[k].htmlUrl in HtmlUrls(out)
  {
    FirstOccurrencesCover(ds, {});
    assert HasUrl(DetailsOf(out), ds[k].htmlUrl);
    var i :| 0 <= i < |out| && DetailsOf(out)[i].htmlUrl == ds[k].htmlUrl;
    assert out[i].0.htmlUrl == ds[k].htmlUrl;
  }

  /** On success, the repository of every listed GitHub URL is among the collected ones. */
  lemma EveryGitHubPluginCollected(plugins: seq<string>,
                                   fetch: Urls.Request -> Result<Rows.Details>,
                                   download: Rows.Details -> Result<Rows.Repository>,
                                   url: string)
    requires url in plugins && Urls.IsGitHub(url)
    ensures CollectFrom(plugins, fetch, download, {}, Gathered([], [])).Ok? ==>
              Resolves(url, fetch) &&
              DetailsFor(url, fetch).htmlUrl
                in HtmlUrls(CollectFrom(plugins, fetch, download, {}, Gathered([], [])).value.repositories)
  {
    var result := CollectFrom(plugins, fetch, download, {}, Gathered([], []));
    if result.Ok? {
      var urls := GitHubOnly(plugins);
      CollectedRepositories(plugins, fetch, download);
      GitHubOnlyMembers(plugins, url);
      LookupAllValue(urls, fetch);
      var k :| 0 <= k < |urls| && urls[k] == url;
      KeptUrl(result.value.repositories, LookupAll(urls, fetch).value, k);
    }
  }

  /** A collected entry is the first of the lookups `ds` with its `html_url`. */
  lemma {:induction false} KeptFirst(ds: seq<Rows.Details>, out: seq<Entry>, i: nat)
    requires DetailsOf(out) == FirstOccurrences(ds, {}) && i < |out|
    ensures exists k :: 0 <= k < |ds| && ds[k] == out[i].0 &&
                        forall j :: 0 <= j < k ==> ds[j].htmlUrl != out[i].0.htmlUrl
  {
    FirstOccurrencesFirst(ds, {});
    assert DetailsOf(out)[i] == out[i].0;
  }

  /**
   * On success, each collected repository is one of the lookups of the GitHub
   * URLs (which `LookupAllValue` ties to the URLs one by one), and no earlier
   * lookup has the same `html_url`.
   */
  lemma CollectedAtFirstLookup(plugins: seq<string>,
                               fetch: Urls.Request -> Result<Rows.Details>,
                               download: Rows.Details -> Result<Rows.Repository>,
                               i: nat)
    ensures CollectFrom(plugins, fetch, download, {}, Gathered([], [])).Ok? &&
            i < |CollectFrom(plugins, fetch, download, {}, Gathered([], [])).value.repositories| ==>
              LookupAll(GitHubOnly(plugins), fetch).Ok? &&
              exists k :: 0 <= k < |LookupAll(GitHubOnly(plugins), fetch).value| &&
                LookupAll(GitHubOnly(plugins), fetch).value[k]
                  == CollectFrom(plugins, fetch, download, {}, Gathered([], [])).value.repositories[i].0 &&
                forall j :: 0 <= j < k ==>
                  LookupAll(GitHubOnly(plugins), fetch).value[j].htmlUrl
                    != CollectFrom(plugins, fetch, download, {}, Gathered([], [])).value.repositories[i].0.htmlUrl
  {
    var result := CollectFrom(plugins, fetch, download, {}, Gathered([], []));
    if result.Ok? && i < |result.value.repositories| {
      CollectedRepositories(plugins, fetch, download);
      KeptFirst(LookupAll(GitHubOnly(plugins), fetch).value, result.value.repositories, i);
    }
  }
}
