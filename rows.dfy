/**
 * The records read from GitHub and the table rows made from them
 * (`_GitHubRepositoryDetails`, `_GitHubRepository`, `_GitHubRow`,
 * `_get_github_table_rows`).
 */
module Rows {
  import opened Wrappers
  import Markdown
  import Summary
  import Dates
  import AiModels

  /** `_GitHubRepositoryDetailsLicense`. */
  datatype License = License(name: string, url: Option<string>)

  /** `_GitHubRepositoryDetails`: the fields of GitHub's repository record that are read. */
  datatype Details = Details(
    defaultBranch: string,
    description: Option<string>,
    htmlUrl: string,
    license: Option<License>,
    name: string,
    ownerLogin: string,
    pushedAt: string,
    stargazersCount: int)

  /** `_GitHubRepository`: a downloaded repository and its documentation pages. */
  datatype Repository = Repository(
    directory: string,
    documentation: seq<string>,
    name: string,
    owner: string,
    url: string)

  /** `_GitHubRow`: the data of one table row, not yet written as text. */
  datatype Row = Row(
    description: Option<string>,
    lastCommitDate: string,
    license: Option<License>,
    models: set<AiModels.Model>,
    name: string,
    starCount: int,
    status: Option<string>,
    url: string)

  /** `_GitHubRow.get_repository_label`: `[name](url)`, which reads back as the name and url. */
  function RepositoryLabel(row: Row): (r: string)
    ensures ']' !in row.name ==> Markdown.ParseLink(r) == Some((row.name, row.url))
  {
    var r := Markdown.Link(row.name, row.url);
    if ']' !in row.name then
      Markdown.LinkRoundTrip(row.name, row.url);
      r
    else r
  }

  /** `_Category.unknown`, what `_get_primary_category` returns for every repository. */
  const UnknownCategory: string := "unknown"

  /**
   * The row `_get_github_table_rows` builds for one repository, given the
   * date already read from its `pushed_at`. `_get_status` always answers
   * None.
   */
  function MakeRow(details: Details, repository: Repository, date: string): Row {
    Row(Summary.RowDescription(details.description), date, details.license,
        AiModels.ModelsIn(repository.documentation), repository.name,
        details.stargazersCount, None, repository.url)
  }

  /** The row of one repository, or the error its timestamp raises. */
  function RowFor(entry: (Details, Repository)): Result<Row> {
    match Dates.LastCommitDate(entry.0.pushedAt)
    case Err(e) => Err(e)
    case Ok(date) => Ok(MakeRow(entry.0, entry.1, date))
  }

  /** `output[category].append(row)` on a `defaultdict(list)`. */
  function Append(groups: map<string, seq<Row>>, category: string, row: Row): (r: map<string, seq<Row>>)
    ensures r.Keys == groups.Keys + {category}
    ensures r[category] == (if category in groups then groups[category] else []) + [row]
    ensures forall k :: k in groups && k != category ==> r[k] == groups[k]
  {
    groups[category := (if category in groups then groups[category] else []) + [row]]
  }

  /**
   * What the loop of `_get_github_table_rows` computes from `groups` onwards:
   * the first timestamp `strptime` refuses raises, otherwise every
   * repository's row is appended under its category.
   */
  function RowsFrom(repositories: seq<(Details, Repository)>, groups: map<string, seq<Row>>)
    : Result<map<string, seq<Row>>>
  {
    if repositories == [] then Ok(groups)
    else
      match RowFor(repositories[0])
      case Err(e) => Err(e)
      case Ok(row) => RowsFrom(repositories[1..], Append(groups, UnknownCategory, row))
  }

  /** Every timestamp of `repositories` is one `strptime` accepts. */
  predicate AllDated(repositories: seq<(Details, Repository)>) {
    forall i :: 0 <= i < |repositories| ==> RowFor(repositories[i]).Ok?
  }

  /** The rows of `repositories` in input order, one per repository. */
  function RowsOf(repositories: seq<(Details, Repository)>): (r: seq<Row>)
    requires AllDated(repositories)
    ensures |r| == |repositories|
  {
    if repositories == [] then []
    else
      AllDatedCons(repositories);
      [RowFor(repositories[0]).value] + RowsOf(repositories[1..])
  }

  /**
   * `_get_github_table_rows`: rows grouped by category, or the error of the
   * first timestamp that cannot be read.
   */
  method GetGithubTableRows(repositories: seq<(Details, Repository)>)
    returns (r: Result<map<string, seq<Row>>>)
    ensures r == RowsFrom(repositories, map[])
  {
    var output: map<string, seq<Row>> := map[];
    for i := 0 to |repositories|
      invariant RowsFrom(repositories, map[]) == RowsFrom(repositories[i..], output)
    {
      var (details, repository) := repositories[i];
      var description := Summary.RowDescription(details.description);
      var category := UnknownCategory;
      var models := AiModels.GetModels(repository.documentation);
      var date := Dates.LastCommitDate(details.pushedAt);
      if date.Err? {
        return Err(date.error);
      }
      var row := Row(description, date.value, details.license, models, repository.name,
                     details.stargazersCount, None, repository.url);
      output := Append(output, category, row);
      assert repositories[i..][1..] == repositories[i + 1..];
    }
    assert repositories[|repositories|..] == [];
    r := Ok(output);
  }

  /** The rows already gathered under "unknown". */
  function Gathered(groups: map<string, seq<Row>>): seq<Row> {
    if UnknownCategory in groups then groups[UnknownCategory] else []
  }

  lemma AllDatedCons(repositories: seq<(Details, Repository)>)
    requires repositories != []
    ensures AllDated(repositories) <==> RowFor(repositories[0]).Ok? && AllDated(repositories[1..])
  {
    var rest := repositories[1..];
    if RowFor(repositories[0]).Ok? && AllDated(rest) {
      forall i | 0 <= i < |repositories|
        ensures RowFor(repositories[i]).Ok?
      {
        if i > 0 {
          assert repositories[i] == rest[i - 1];
        }
      }
    }
  }

  /** The loop fails exactly when some timestamp is malformed. */
  lemma {:induction false} RowsFromOk(repositories: seq<(Details, Repository)>, groups: map<string, seq<Row>>)
    ensures RowsFrom(repositories, groups).Ok? <==> AllDated(repositories)
  {
    if repositories != [] {
      AllDatedCons(repositories);
      match RowFor(repositories[0])
      case Err(e) =>
      case Ok(row) =>
        RowsFromOk(repositories[1..], Append(groups, UnknownCategory, row));
    }
  }

  /** One turn of the loop over groups that hold at most the "unknown" category. */
  lemma RowsFromStep(repositories: seq<(Details, Repository)>, groups: map<string, seq<Row>>)
    requires groups.Keys <= {UnknownCategory} && repositories != [] && AllDated(repositories)
    ensures AllDated(repositories[1..]) && RowFor(repositories[0]).Ok?
    ensures var next := Append(groups, UnknownCategory, RowFor(repositories[0]).value);
            RowsFrom(repositories, groups) == RowsFrom(repositories[1..], next) &&
            next.Keys == {UnknownCategory} &&
            Gathered(next) == Gathered(groups) + [RowFor(repositories[0]).value]
    ensures RowsOf(repositories) == [RowFor(repositories[0]).value] + RowsOf(repositories[1..])
  {
    AllDatedCons(repositories);
  }

  /**
   * Continuing from groups that hold at most the "unknown" category, the
   * loop ends with exactly that category when there was something to add.
   */
  lemma {:induction false} RowsFromKeys(repositories: seq<(Details, Repository)>, groups: map<string, seq<Row>>)
    requires groups.Keys <= {UnknownCategory} && AllDated(repositories)
    ensures RowsFrom(repositories, groups).Ok?
    ensures RowsFrom(repositories, groups).value.Keys == groups.Keys + (if repositories == [] then {} else {UnknownCategory})
  {
    if repositories != [] {
      RowsFromStep(repositories, groups);
      RowsFromKeys(repositories[1..], Append(groups, UnknownCategory, RowFor(repositories[0]).value));
    }
  }

  lemma ConcatAssociative<T>(a: seq<T>, b: seq<T>, c: seq<T>)
    ensures a + (b + c) == (a + b) + c
  {
  }

  lemma ConcatEmpty<T>(a: seq<T>)
    ensures a + [] == a && [] + a == a
  {
  }

  /**
   * Continuing from groups that hold at most the "unknown" category, every
   * repository's row is appended, in order, under "unknown".
   */
  lemma {:induction false} RowsFromValue(repositories: seq<(Details, Repository)>, groups: map<string, seq<Row>>)
    requires groups.Keys <= {UnknownCategory} && AllDated(repositories)
    requires RowsFrom(repositories, groups).Ok?
    ensures Gathered(RowsFrom(repositories, groups).value) == Gathered(groups) + RowsOf(repositories)
  {
    if repositories == [] {
      ConcatEmpty(Gathered(groups));
    } else {
      RowsFromStep(repositories, groups);
      var row := RowFor(repositories[0]).value;
      var next := Append(groups, UnknownCategory, row);
      RowsFromValue(repositories[1..], next);
      ConcatAssociative(Gathered(groups), [row], RowsOf(repositories[1..]));
    }
  }

  /**
   * What `_get_github_table_rows` returns: nothing for no repositories;
   * otherwise, when every timestamp reads, the single "unknown" table holding
   * one row per repository in input order, and an error when one does not.
   */
  lemma GithubTableRows(repositories: seq<(Details, Repository)>)
    ensures RowsFrom(repositories, map[]).Ok? <==> AllDated(repositories)
    ensures repositories == [] ==> RowsFrom(repositories, map[]) == Ok(map[])
    ensures repositories != [] && AllDated(repositories) ==>
              RowsFrom(repositories, map[]).value.Keys == {UnknownCategory} &&
              RowsFrom(repositories, map[]).value[UnknownCategory] == RowsOf(repositories)
  {
    RowsFromOk(repositories, map[]);
    if AllDated(repositories) {
      RowsFromKeys(repositories, map[]);
      RowsFromValue(repositories, map[]);
      ConcatEmpty(RowsOf(repositories));
    }
  }
}
