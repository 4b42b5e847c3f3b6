# Neovim AI plugin README generator — a Dafny model

`generate_readme.py` builds the README of a curated list of Neovim AI
plugins. It reads the list of plugin URLs from a bullet list in the
current README and looks each GitHub repository up. It then infers which
AI models each plugin mentions and renders one markdown table per category,
under a header that lists every plugin again. This project models the part
of the script between "the repository metadata has been fetched" and "the
README text is assembled", and proves properties of it:

- `Summary`: cropping text with an ellipsis (`_get_ellided_text`) and the
  80-character description summary (`_get_description_summary`).
- `AiModels`: the seven known models, their search terms
  (`_Model.get_search_terms`), their markdown tags, and the case-insensitive
  inference of the models a plugin's documentation mentions (`_get_models`).
- `Urls`: the GitHub URL patterns (`_is_github`), the README file-name test
  (`_is_readme`) and `_GitHubRepositoryRequest.from_url`. The latter is
  modelled with the part of `urllib.parse.urlparse` it relies on.
- `Dates`: `_get_last_commit_date`, which parses a `YYYY-MM-DDTHH:MM:SSZ`
  timestamp with calendar checks and keeps the date.
- `Markdown`: the `[text](url)` link that tags, labels and licenses share.
- `Rows`: the row record, `_GitHubRow.get_repository_label`, and the
  grouping of repositories into rows per category (`_get_github_table_rows`).
- `Tables`: the cells and placeholders of a row, the license cell
  (`_get_license_as_markdown`), a table (`_serialize_github_table`), the
  per-category sections (`_get_tables_as_lines`) and `_Tables.is_empty`.
- `PluginList`: the bullet list that `_get_reader_header` writes, and the
  line loop of `_get_plugin_urls` that reads it back.
- `SyntaxTree`: an abstract syntax tree (type, named flag, byte range,
  children). Over it the module models the explicit-stack walk
  `_iter_all_nodes`, `_get_first_child_of_type`, `_NodeWrapper.get` and
  `_NodeWrapper.text`.
- `Collection`: the loop of `_get_table_data`. It sets non-GitHub URLs aside
  and drops a repository whose `html_url` was already seen. It takes the
  GitHub lookup and the download as function parameters.
- `Wrappers`, `Strings`, `StringOrder`: `Option`/`Result`, `_verify`, the
  string operations the script uses, and Python's `sorted` on strings.

The loops of the script are methods with loop invariants. Each is proved
equal to a recursive function, and the lemmas state what the script
promises about that function. A Python exception becomes an `Err` value,
with one `Error` constructor per raise site.

Three behaviours of the code shape the model:

- Row lines and bullet lines are sorted as whole strings, in plain
  code-point order (lines 789, 838 and 1159), not by name and not
  case-insensitively.
- A failed GitHub request is not turned into a placeholder row: the
  `raise_for_status` calls (lines 473, 496 and 971) let the HTTP error
  propagate, so `fetch` or `download` returns an `Err` and the whole
  collection fails.
- A plugin URL whose repository `html_url` was already seen adds no row
  (lines 889-892), so a repository listed twice appears once.

## Model

| member | source | states |
|---|---|---|
| Wrappers.Verify | generate_readme.py:1195-1211 | The value is returned exactly when it is present; otherwise the result is the "missing value" error. |
| Summary.EllidedText | generate_readme.py:405-425 | Text no longer than the bound is returned unchanged; longer text becomes its Python-sliced prefix followed by "...". |
| Summary.EllidedTextBound | generate_readme.py:405-425 | For a bound of at least 3, the result has exactly the bound's length when it crops and never exceeds the bound; the cropped result is the first max-3 characters plus "...". |
| Summary.EllidedTextSmallBound | generate_readme.py:425 | Below 3 the negative slice breaks the bound: cropping "abcdef" to 2 gives "abcde...", which is longer than 2. |
| Summary.EllidedTextExample | generate_readme.py:408-410 | The docstring example: "some long string" cropped to 7 is "some...". |
| Summary.EllidedTextIdempotent | generate_readme.py:405-425 | Cropping an already cropped text again changes nothing. |
| Summary.DescriptionSummary | generate_readme.py:375-393 | None exactly for a missing or empty description; otherwise at most 80 characters, the description itself when it fits, else its first 77 characters plus "...". |
| Summary.RowDescription | generate_readme.py:516-519 | Cropping the summary a second time, as the row builder does, leaves the summary as it was. |
| Markdown.Link | generate_readme.py:1181 | A link is four characters longer than its text and URL together, opens with '[' and closes with ')'. |
| Markdown.ParseLink | generate_readme.py:1181 | A parsed link's text never holds ']'. |
| Markdown.LinkRoundTrip | generate_readme.py:1181 | Parsing the link written for a text without ']' gives back the text and the URL. |
| Markdown.LinkExcludes | generate_readme.py:1181 | A character that is not a bracket or parenthesis and is absent from text and URL is absent from the link. |
| Markdown.LinkInjective | generate_readme.py:1181 | Two links for texts without ']' are equal only when their texts and URLs are. |
| AiModels.SearchTermsOf | generate_readme.py:65-73 | The terms are never empty: the name when none (or an empty string or list) are given, the single term when it is a string, and the list otherwise. |
| AiModels.MarkdownTag | generate_readme.py:75-77 | The tag parses back as a link whose text is "#" and the name and whose target is the model's URL. |
| AiModels.Mentions | generate_readme.py:595-599 | A model is found in a lowered page exactly when it is a known model and the page contains one of its non-empty search terms. |
| AiModels.GetModels | generate_readme.py:581-601 | The loop's set equals the union, page by page, of the models each lowered page mentions. |
| AiModels.ModelsInMeaning | generate_readme.py:581-601 | A model is inferred exactly when it is one of the seven known models and some page, lowered, mentions one of its terms; no pages give no models. |
| AiModels.ModelsInConcat | generate_readme.py:593-599 | The models of two runs of pages together are the union of the models of each. |
| AiModels.KnownTermsLowerCase | generate_readme.py:80-92 | Every search term of a known model is non-empty and already lower case, so lowering the page is the whole case-insensitivity. |
| AiModels.MentionIgnoresCase | generate_readme.py:594 | A page and its lowered copy give the same models. |
| AiModels.LowerIdempotent | generate_readme.py:594 | Lowering twice is lowering once. |
| AiModels.GetModelsExample | generate_readme.py:581-601 | A page reading "OLLAMA" yields exactly the Ollama model. |
| Urls.HttpPatternPrefixes | generate_readme.py:34-38 | The pattern with the optional 's' matches exactly the URLs starting with "http://github.com/" or "https://github.com/". |
| Urls.IsGitHubPrefixes | generate_readme.py:317-327 | A URL is a GitHub URL exactly when it starts with one of "http://github.com/", "https://github.com/", "git@github.com:" or "git://github.com/". |
| Urls.Basename | generate_readme.py:340 | The base name is a suffix of the path and holds no '/'. |
| Urls.SplitExtRoot | generate_readme.py:340 | The root is a prefix of the name. |
| Urls.LowerSplitExtRoot | generate_readme.py:340-342 | Dropping the extension and lowering commute. |
| Urls.IsReadmeCharacterized | generate_readme.py:330-342 | A path is a README exactly when its lowered base name is "readme" or "readme." followed by one extension without a further dot. |
| Urls.IsReadmeExample | generate_readme.py:330-342 | "README.md" is a README. |
| Urls.IsNotReadmeExample | generate_readme.py:330-342 | "readme.md.txt" is not a README: only the last extension is removed. |
| Urls.FromPath | generate_readme.py:147-151 | A request is made exactly when the path holds a '/'; its owner and name are the last two segments, free of '/'; otherwise the "path too short" error. |
| Urls.FromPathRoundTrip | generate_readme.py:147-151 | Any path ending in "/owner/name" yields that owner and name. |
| Urls.StripLeadingControls | generate_readme.py:146 | `urlparse` first strips every leading control character and space: the result is empty or starts above ' ', and a URL that already does is kept. |
| Urls.RemoveUnsafe | generate_readme.py:146 | `urlparse` deletes every tab, carriage return and line feed: the result holds none of them and nothing the URL did not hold, a URL free of them is kept, and a kept first character stays first. |
| Urls.CleanedIdempotent | generate_readme.py:146 | Cleaning a cleaned URL changes nothing, and a cleaned URL holds no tab, carriage return or line feed. |
| Urls.FromUrlIgnoresUnsafe | generate_readme.py:145-151 | A URL and its cleaned form yield the same request, and one yields a request exactly when the other does. |
| Urls.CleanedKeeps | generate_readme.py:146 | A URL that starts above ' ' and holds no tab, carriage return or line feed is left as it is. |
| Urls.FromUrlUnbalanced | generate_readme.py:146 | A network location holding '[' without ']', or the reverse, makes the URL fail with the "invalid IPv6 URL" error. |
| Urls.SchemeUrlSplit | generate_readme.py:146 | "scheme://netloc/path" is kept by cleaning and splits into the scheme, the network location and the path. |
| Urls.SchemeUrlPath | generate_readme.py:146 | With balanced brackets in the network location and no '?' or '#', the path of "scheme://netloc/path" is "/path". |
| Urls.FromUrlWithScheme | generate_readme.py:145-151 | "scheme://github.com/owner/name" yields the request for that owner and name. |
| Urls.FromUrlScpStyle | generate_readme.py:145-151 | "git@github.com:owner/name" has no scheme or host, so its owner is read as "git@github.com:owner". |
| Urls.PlainPath | generate_readme.py:146-147 | A URL without scheme, query, fragment or anything to clean that does not start with '/' is its own path. |
| Dates.DaysInMonth | generate_readme.py:576 | A month has 28 to 31 days, and February has 29 exactly in a leap year. |
| Dates.ParseTimestamp | generate_readme.py:576 | A timestamp is parsed exactly when it has the zero-padded layout and names a real date and time. |
| Dates.LastCommitDate | generate_readme.py:564-578 | The date is produced exactly when the timestamp parses, otherwise the malformed-timestamp error; for a year not starting with '0' it is the timestamp's first ten characters. |
| Dates.DateIsPrefix | generate_readme.py:578 | Formatting the parsed fields gives back the "YYYY-MM-DD" prefix of the timestamp. |
| Dates.Pad2RoundTrip | generate_readme.py:578 | Two digits read and padded again are the same two digits. |
| Dates.DigitsRoundTrip | generate_readme.py:578 | A digit string without a leading zero, read and written again, is unchanged. |
| Dates.LastCommitDateExample | generate_readme.py:574 | The example "2025-06-04T19:41:16Z" gives "2025-06-04". |
| Dates.LastCommitDateRejectsFebruary30 | generate_readme.py:576 | "2025-02-30T00:00:00Z" is rejected although it has the right layout. |
| Rows.RepositoryLabel | generate_readme.py:268-270 | The label parses back as a link to the row's URL with the row's name as text. |
| Rows.Append | generate_readme.py:524 | Appending to a group adds the key if it was missing, puts the row after that group's earlier rows, and leaves every other group as it was. |
| Rows.GetGithubTableRows | generate_readme.py:501-537 | The loop computes the grouping function from an empty dictionary. |
| Rows.RowsFromOk | generate_readme.py:515-535 | Grouping succeeds exactly when every repository's last-push timestamp parses. |
| Rows.RowsFromValue | generate_readme.py:515-535 | The rows gathered under "unknown" are the earlier ones followed by one row per repository, in input order. |
| Rows.GithubTableRows | generate_readme.py:501-537 | No repositories give an empty dictionary; otherwise the only category is "unknown", and it holds one row per repository in input order. |
| Tables.LicenseAsMarkdown | generate_readme.py:1162-1181 | Without a URL the cell is the name with every " License" removed; with one it parses back as a link from that name to the URL. |
| Tables.LicenseExample | generate_readme.py:1172-1181 | "MIT License" renders as "MIT" without a URL and as a link labelled "MIT" with one. |
| Tables.ModelsCellPlaceholder | generate_readme.py:1134-1137 | The models cell is the "<No AI models were found>" placeholder exactly when no model was found. |
| Tables.ModelsCellWords | generate_readme.py:1135 | Split at spaces, a non-empty models cell is the model tags, strictly ascending, each once. |
| Tables.DescriptionCell | generate_readme.py:1146 | The cell is the description when there is one, and the "`<No description found>`" placeholder otherwise. |
| Tables.LicenseCell | generate_readme.py:1139-1142 | The cell is the rendered license when there is one, and the "`<No license found>`" placeholder otherwise. |
| Tables.Cells | generate_readme.py:1144-1151 | A row has six cells, one per header column. |
| Tables.RowColumns | generate_readme.py:1133-1152 | A row whose texts hold no bar character splits at its bars into eight parts: an empty text, then the label, the description or its placeholder, the stars, the models, the date and the license cell, each padded with one space on both sides, then an empty text. |
| Tables.CellsLack | generate_readme.py:1133-1151 | When no text of a row holds a line break (or a bar), no cell does. |
| Tables.BarColumns | generate_readme.py:1152 | A row line split at '|' gives an empty edge, each cell padded by one space, and an empty edge. |
| Tables.HeaderShape | generate_readme.py:1154-1157 | The two header lines are single lines of eight '|'-separated columns with matching widths. |
| Tables.RowLineOneLine | generate_readme.py:1133-1152 | A row whose fields hold no line break renders as a single line. |
| Tables.TableTextLines | generate_readme.py:1159 | The table text splits back into the two header lines and the row lines in ascending order. |
| Tables.SerializedTable | generate_readme.py:1128-1129 | No table is produced exactly when there are no rows. |
| Tables.SerializeGithubTable | generate_readme.py:1118-1159 | The loop builds one line per row and produces the serialized table. |
| Tables.SerializedTableLines | generate_readme.py:1118-1159 | For single-line rows, the table's lines are the two header lines and then the row lines, sorted, each once. |
| Tables.IsEmpty | generate_readme.py:305-307 | Tables are empty exactly when there are no GitHub categories and no unknown rows. |
| Tables.SectionLines | generate_readme.py:839-845 | A section's lines are the capitalized name, an '=' underline as long as the name, a blank line, and the table's lines. |
| Tables.CategoriesSorted | generate_readme.py:838 | The categories are listed strictly ascending, each once, and they are exactly the dictionary's keys. |
| Tables.GetTablesAsLines | generate_readme.py:823-854 | The loop computes the sections function on the tables. |
| Tables.SectionsFromOk | generate_readme.py:838-845 | The section loop succeeds exactly when every table serializes; otherwise it reports the first table that does not. |
| Tables.SectionsFromValue | generate_readme.py:838-845 | When every table serializes, the loop appends one section per table, in order. |
| Tables.TablesAsLinesOk | generate_readme.py:823-854 | Rendering succeeds exactly when there are no unknown rows and no empty category. Otherwise the error names the first empty category in ascending order, or reports the unfinished unknown table. |
| Tables.TablesAsLinesValue | generate_readme.py:823-854 | On success there is one section per category, in ascending order, each holding that category's rows. |
| Tables.SectionOfCategory | generate_readme.py:838-845 | On success, the k-th section is the section of the k-th category in ascending order. |
| Tables.EmptyTablesHaveNoLines | generate_readme.py:823-854 | Empty tables render as no lines at all. |
| PluginList.ReaderHeaderLines | generate_readme.py:762-789 | The header's lines are the template's, then one "- name" bullet per plugin in ascending order, then the closing fence and "</details>". |
| PluginList.BulletMatch | generate_readme.py:729 | A matched bullet's text is never empty. |
| PluginList.BulletMatchStripped | generate_readme.py:729 | On a stripped line, the bullet expression matches exactly a '-' followed by more text, and it captures what follows the dash and its spaces. |
| PluginList.ReadLine | generate_readme.py:724-737 | A line is skipped exactly when it is blank or a fence once stripped; a kept bullet's text is non-empty; a refused line is reported stripped. |
| PluginList.GetPluginUrls | generate_readme.py:716-739 | The loop computes the line-reading function: no text gives None, otherwise the texts of the bullets in order or the first refused line. |
| PluginList.ParseFromOk | generate_readme.py:723-739 | Reading succeeds exactly when no line is refused; otherwise the error names the first refused line. |
| PluginList.ParseFromOutput | generate_readme.py:721-739 | Texts already gathered are kept, in front of what the remaining lines add. |
| PluginList.ParseSkips | generate_readme.py:726-727 | Inserting a blank line or a fence anywhere changes nothing. |
| PluginList.ParseKept | generate_readme.py:737 | Lines that are all bullets give their texts in order. |
| PluginList.BulletRoundTrip | generate_readme.py:721-739 | The bullet block written for plain names, stripped and read back, gives the names sorted; no names give None. |
| SyntaxTree.PreOrderSize | generate_readme.py:902-924 | The pre-order lists as many nodes as the tree has. |
| SyntaxTree.PreOrderMembers | generate_readme.py:902-924 | A node is listed exactly when it lies within the tree. |
| SyntaxTree.PopPush | generate_readme.py:919-924 | Popping the top node and pushing its children in reverse lists that node first, then its subtree, then the rest of the stack. |
| SyntaxTree.IterAllNodes | generate_readme.py:902-924 | The explicit-stack walk yields exactly the recursive left-to-right pre-order. |
| SyntaxTree.IterAllNodesComplete | generate_readme.py:902-924 | The walk yields the root first and every node of the tree, and no other node. |
| SyntaxTree.NamedChildren | generate_readme.py:444 | The named children are among the children and are all named, and every named child is among them. |
| SyntaxTree.NamedChildrenConcat | generate_readme.py:444 | The named children of two runs of children are those of the first run followed by those of the second, so the order is kept. |
| SyntaxTree.NamedChildrenSingle | generate_readme.py:444 | A single child is kept exactly when it is named. |
| SyntaxTree.FirstOfType | generate_readme.py:444-446 | A child is found exactly when some node has the type, and it is the first such node. |
| SyntaxTree.GetFirstChildOfType | generate_readme.py:428-448 | The loop returns the first named child of the type, or the "child not found" error naming the type. |
| SyntaxTree.Child | generate_readme.py:216-220 | A step that succeeds lands on a child of the node. A type step is the first named child of that type or its error. An index step succeeds exactly when the index is below the number of named children, and then gives the named child at that index. |
| SyntaxTree.Get | generate_readme.py:196-227 | The loop succeeds exactly when the path can be walked, keeps the document bytes, and otherwise reports the first failing step's error. |
| SyntaxTree.WalkConcat | generate_readme.py:216-225 | Walking two paths one after the other is walking the joined path. |
| SyntaxTree.WalkWithin | generate_readme.py:216-225 | Any node a path reaches lies within the starting node. |
| SyntaxTree.IndexStep | generate_readme.py:220 | An index step succeeds exactly when there are more named children than the index, and otherwise fails as a missing value. |
| SyntaxTree.Slice | generate_readme.py:244 | Slicing uses Python's clamping: bounds past the end are cut to the end, and an empty or reversed range gives nothing. |
| SyntaxTree.Text | generate_readme.py:229-244 | The text is present exactly when the path can be walked, and it is the document's bytes over the reached node's range. |
| Collection.GetTableData | generate_readme.py:857-899 | The loop with its seen set computes the collection function followed by the grouping into rows. |
| Collection.CollectFromOk | generate_readme.py:878-895 | From any state whose seen set matches the collected repositories, the unknown URLs grow by exactly the non-GitHub URLs, the html_urls stay pairwise distinct, and each URL adds at most one entry. |
| Collection.CollectOk | generate_readme.py:878-895 | On success, the unknown rows are the non-GitHub URLs in input order, the repositories have pairwise distinct html_urls, and unknown rows plus repositories number at most the plugins. |
| Collection.NotGitHubExcludes | generate_readme.py:881-882 | A URL is set aside as unknown exactly when it is listed and is not a GitHub URL. |
| Collection.TableDataNotEmpty | generate_readme.py:857-899 | A list with a non-GitHub URL never collects empty tables. |
| Collection.GitHubOnly | generate_readme.py:880-886 | The GitHub URLs of the list are no more than the list. |
| Collection.GitHubOnlyMembers | generate_readme.py:880-886 | A URL is among the GitHub URLs exactly when it is listed and is a GitHub URL. |
| Collection.LookupAllValue | generate_readme.py:886-887 | Looking up every GitHub URL succeeds exactly when each URL gives a request and each request is found; then there is one lookup per URL, in order. |
| Collection.FirstOccurrences | generate_readme.py:889-892 | Keeping each html_url's first lookup keeps no more than the lookups. |
| Collection.FirstOccurrencesCons | generate_readme.py:889-892 | A lookup in front is kept exactly when its html_url was not seen, and it is then added to the seen set. |
| Collection.FirstOccurrencesFresh | generate_readme.py:889-892 | Kept lookups come from the input, have html_urls not seen before, and have pairwise distinct html_urls. |
| Collection.FirstOccurrencesCover | generate_readme.py:889-892 | Every html_url of the input that was not seen before is kept. |
| Collection.FirstOccurrencesFirst | generate_readme.py:889-892 | Each kept lookup is the first lookup in the input with its html_url. |
| Collection.CollectRepositories | generate_readme.py:880-895 | On success, from any seen set, every GitHub URL was looked up, the repositories gathered before are kept in front, the new ones are exactly the first lookup per html_url not seen before, in order, and each is paired with its download. |
| Collection.CollectedRepositories | generate_readme.py:878-895 | On success from the start, the repositories are exactly the first lookup per html_url, in list order, each paired with its download. |
| Collection.EveryGitHubPluginCollected | generate_readme.py:880-895 | On success, every listed GitHub URL gives a request and a lookup, and that lookup's html_url is among the collected repositories. |
| Collection.CollectedAtFirstLookup | generate_readme.py:880-895 | On success, each collected repository is the lookup of some GitHub URL, and no earlier lookup has the same html_url. |
| StringOrder.SortSorted | generate_readme.py:789 | Sorting yields code-point ascending order; with the ensures of Sort it is a permutation of its input. |
| StringOrder.SortedUnique | generate_readme.py:1159 | Two ascending orderings of the same lines are the same sequence, so the sorted result does not depend on input order. |
| StringOrder.SortPrefixed | generate_readme.py:789 | Sorting "- "-prefixed names equals prefixing the sorted names. |
| StringOrder.SortedSet | generate_readme.py:1135 | A set's sorted listing holds exactly its members, strictly ascending. |
| Strings.SplitJoin | generate_readme.py:1159 | Joining lines that hold no separator and splitting again gives the lines back. |

## Left out

- HTTP: `_get_github_repository_details`, `_get_github_repository_file_tree`, `_download_github_documentation_files` and `_download_github_files` are network I/O. `Collection` takes the lookup and the download as function parameters returning `Result`, so a raised HTTP error aborts the collection.
- The `GITHUB_TOKEN` request headers and the temporary clone directory of `_get_table_data`: they only reach the network and file-system calls.
- File-system I/O: `_find_documentation`, `_get_readme_path`, the file read in `_generate_readme_text` and the file write in `_main`. Documentation pages are plain strings.
- Tree-sitter parsing: `_get_html_wrapper` and the parser calls in the inner `_get_plugins_text` are a foreign library. `SyntaxTree` works over an abstract node, and `PluginList.PluginUrls` starts from the text `_get_plugins_text` returns.
- Process and command-line plumbing: `_git`, `_validate_environment`, `_parse_arguments`, `_generate_readme_text`, `_main` and the logging set-up.
- `_ask_ai` always raises and is never called. `_get_primary_category` always returns "unknown" (`Rows.UnknownCategory`), and `_get_status` always returns None; both are constants in `Rows.MakeRow`.
- The clock: `_get_reader_header` takes the date as a parameter instead of reading `datetime.now`.
- Dates.LastCommitDate: models `strptime` only for the zero-padded layout. `strptime` also accepts unpadded fields, which the model rejects. A year below 1000 is rendered unpadded, so the result equals the first ten characters only when the year does not start with '0'.
- Urls.FromUrl: models the parts of `urlparse` that decide the path. These are the cleaning of leading control characters and spaces and of tabs, carriage returns and line feeds, the scheme, the `//` network location with its unbalanced-bracket `ValueError`, the query and the fragment. Three parts are left out: the `;params` split, the check of a bracketed host as an IPv6 or IPvFuture address, and the NFKC check of a non-ASCII network location. A path without '/' gives an `Err` where Python raises `IndexError`.
- Strings.Lower, Strings.Strip and Strings.Capitalize cover ASCII only: Python's Unicode case mapping is not modelled, and whitespace is the ten ASCII characters `str.isspace` accepts, without 0x85, 0xA0 and the other non-ASCII spaces.
- Summary.EllidedTextBound: requires a bound of at least 3. Python's negative slice breaks the bound below 3, which `Summary.EllidedTextSmallBound` exhibits. The script only calls it with 80.
- SyntaxTree.IterAllNodes: returns the whole list instead of yielding lazily, so a caller that stops early is not modelled.
- SyntaxTree.Get: takes a list of steps. The single `str`/`int` argument form is the one-step list.
- SyntaxTree.Text: takes a list of steps, where the empty list stands for both `None` and the empty string. A single non-empty string is the one-step list. `text("")` is falsy at line 239, so, like no path, it returns the node's own bytes.
- Tables.Tags: a set of tags, so two models that differ only in their search terms give one tag, where the source's `sorted` list repeats it.
- The `RuntimeError` for a missing next sibling in `_get_plugins_text`: it belongs to the tree-sitter part.
- Tables.TablesAsLines: the `NotImplementedError` for unknown rows is modelled as the `UnknownTableNotImplemented` error.
