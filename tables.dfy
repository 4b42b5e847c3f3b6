/**
 * Writing the collected rows as markdown (`_get_license_as_markdown`,
 * `_serialize_github_table`, `_Tables`, `_get_tables_as_lines`).
 */
module Tables {
  import opened Wrappers
  import opened Strings
  import opened StringOrder
  import Markdown
  import AiModels
  import opened Rows

  /** The word dropped from every license name. */
  const LicenseSuffix: string := " License"

  const NoDescription: string := "`<No description found>`"
  const NoModels: string := "<No AI models were found>"
  const NoLicense: string := "`<No license found>`"

  /**
   * `_get_license_as_markdown`: the name with every " License" removed, bare
   * when the license has no url, and linked to the url otherwise.
   */
  function LicenseAsMarkdown(license: License): (r: string)
    ensures license.url == None || license.url.value == "" ==> r == RemoveAll(license.name, LicenseSuffix)
    ensures license.url.Some? && license.url.value != "" && ']' !in license.name ==>
              Markdown.ParseLink(r) == Some((RemoveAll(license.name, LicenseSuffix), license.url.value))
  {
    var name := RemoveAll(license.name, LicenseSuffix);
    match license.url
    case None => name
    case Some(url) =>
      if url == "" then name
      else
        if ']' !in license.name then
          Markdown.LinkRoundTrip(name, url);
          Markdown.Link(name, url)
        else Markdown.Link(name, url)
  }

  /** The trailing " License" of "MIT License" goes. */
  lemma MitSuffix()
    ensures RemoveAll("MIT License", LicenseSuffix) == "MIT"
  {
    var s := "MIT" + LicenseSuffix;
    forall i | 0 <= i < 3
      ensures !StartsWith(s[i..], LicenseSuffix)
    {
      assert s[i..][0] != LicenseSuffix[0];
    }
    RemoveAllTrailing("MIT", LicenseSuffix);
    assert s == "MIT License";
  }

  /** "MIT License" is shown as "MIT", bare without a url and as the text of the link with one. */
  lemma LicenseExample(url: string)
    requires url != ""
    ensures LicenseAsMarkdown(License("MIT License", None)) == "MIT"
    ensures LicenseAsMarkdown(License("MIT License", Some(""))) == "MIT"
    ensures LicenseAsMarkdown(License("MIT License", Some(url))) == Markdown.Link("MIT", url)
  {
    MitSuffix();
  }

  /**
   * The tags of a row's models, as a set: two models that differ only in
   * their search terms have one tag here, which the source's list shows twice.
   */
  function Tags(models: set<AiModels.Model>): set<string> {
    set m | m in models :: AiModels.MarkdownTag(m)
  }

  /**
   * The models cell: the models' tags in ascending order separated by
   * spaces, or a placeholder when no model was found.
   */
  function ModelsCell(models: set<AiModels.Model>): string {
    if models == {} then NoModels else Join(SortedSet(Tags(models)), " ")
  }

  /** The placeholder stands exactly for an empty set of models. */
  lemma ModelsCellPlaceholder(models: set<AiModels.Model>)
    ensures ModelsCell(models) == NoModels <==> models == {}
  {
    if models != {} {
      var m :| m in models;
      assert AiModels.MarkdownTag(m) in Tags(models);
      var tags := SortedSet(Tags(models));
      assert tags != [] && tags[0] in Tags(models);
      assert tags[0][0] == '[';
      assert Join(tags, " ")[0] == '[';
    }
  }

  /** A character that is no link syntax, absent from every model's name and url, is absent from every tag. */
  lemma TagsExclude(models: set<AiModels.Model>, c: char)
    requires c != '[' && c != ']' && c != '(' && c != ')' && c != '#'
    requires forall m :: m in models ==> c !in m.name && c !in m.url
    ensures forall t :: t in SortedSet(Tags(models)) ==> c !in t
  {
    forall t | t in SortedSet(Tags(models))
      ensures c !in t
    {
      var m :| m in models && AiModels.MarkdownTag(m) == t;
      Markdown.LinkExcludes("#" + m.name, m.url, c);
    }
  }

  /**
   * The models cell splits at its spaces into the tags, each once and in
   * ascending order, when no model name or url holds a space.
   */
  lemma ModelsCellWords(models: set<AiModels.Model>)
    requires models != {}
    requires forall m :: m in models ==> ' ' !in m.name && ' ' !in m.url
    ensures Split(ModelsCell(models), ' ') == SortedSet(Tags(models))
    ensures StrictlySorted(Split(ModelsCell(models), ' '))
    ensures forall t :: t in Split(ModelsCell(models), ' ') <==> t in Tags(models)
  {
    var tags := SortedSet(Tags(models));
    var m :| m in models;
    assert AiModels.MarkdownTag(m) in Tags(models);
    TagsExclude(models, ' ');
    assert forall k :: 0 <= k < |tags| ==> tags[k] in tags;
    SplitJoin(tags, ' ');
  }

  function DescriptionCell(description: Option<string>): (r: string)
    ensures description.Some? && description.value != "" ==> r == description.value
    ensures description == None || description.value == "" ==> r == NoDescription
  {
    if description.Some? && description.value != "" then description.value else NoDescription
  }

  function LicenseCell(license: Option<License>): (r: string)
    ensures license.Some? ==> r == LicenseAsMarkdown(license.value)
    ensures license == None ==> r == NoLicense
  {
    if license.Some? then LicenseAsMarkdown(license.value) else NoLicense
  }

  function StarsCell(starCount: int): string {
    ":star2: " + IntToString(starCount)
  }

  /** The six cells of a row, left to right. */
  function Cells(row: Row): (r: seq<string>)
    ensures |r| == 6
  {
    [RepositoryLabel(row), DescriptionCell(row.description), StarsCell(row.starCount),
     ModelsCell(row.models), row.lastCommitDate, LicenseCell(row.license)]
  }

  /** A table line: `f"| {' | '.join(parts)} |"`. */
  function Bar(cells: seq<string>): string {
    "| " + Join(cells, " | ") + " |"
  }

  /** `_serialize_github_table`'s line for one row. */
  function RowLine(row: Row): string {
    Bar(Cells(row))
  }

  /** A cell as it sits between two bars: padded with one space on each side. */
  function Bordered(cells: seq<string>): (r: seq<string>)
    ensures |r| == |cells|
    ensures forall k :: 0 <= k < |cells| ==> r[k] == " " + cells[k] + " "
  {
    if cells == [] then [] else [" " + cells[0] + " "] + Bordered(cells[1..])
  }

  lemma {:induction false} JoinBordered(cells: seq<string>)
    requires cells != []
    ensures Join(Bordered(cells), "|") == " " + Join(cells, " | ") + " "
  {
    if |cells| > 1 {
      JoinBordered(cells[1..]);
      assert Bordered(cells)[1..] == Bordered(cells[1..]);
    }
  }

  /**
   * A table line splits at its bars into an empty text, the padded cells
   * and an empty text, when no cell holds a bar: a line has one column per cell.
   */
  lemma BarColumns(cells: seq<string>)
    requires cells != []
    requires forall k :: 0 <= k < |cells| ==> '|' !in cells[k]
    ensures Split(Bar(cells), '|') == [""] + Bordered(cells) + [""]
  {
    var b := Bordered(cells);
    var j := Join(b, "|");
    BorderedExcludes(cells, '|');
    SplitJoin(b, '|');
    JoinBordered(cells);
    Enclosed('|', ' ', Join(cells, " | "));
    assert Bar(cells) == [] + ['|'] + (j + ['|'] + []);
    SplitConcat([], j + ['|'] + [], '|');
    SplitConcat(j, [], '|');
    SplitSingle([], '|');
  }

  lemma BorderedExcludes(cells: seq<string>, c: char)
    requires c != ' '
    requires forall k :: 0 <= k < |cells| ==> c !in cells[k]
    ensures forall k :: 0 <= k < |Bordered(cells)| ==> c !in Bordered(cells)[k]
  {
    var b := Bordered(cells);
    forall k | 0 <= k < |b|
      ensures c !in b[k]
    {
      assert b[k] == " " + cells[k] + " ";
    }
  }

  /** `a b x b a` read two ways. */
  lemma Enclosed<T>(a: T, b: T, x: seq<T>)
    ensures [a, b] + x + [b, a] == [] + [a] + (([b] + x + [b]) + [a] + [])
  {
  }

  /** A line made of cells without line breaks has none. */
  lemma BarOneLine(cells: seq<string>)
    requires forall k :: 0 <= k < |cells| ==> '\n' !in cells[k]
    ensures '\n' !in Bar(cells)
  {
    JoinExcludes(cells, " | ", '\n');
  }

  /** The column titles of every table. */
  const HeaderCells: seq<string> :=
    [":ab: Name", ":notebook: Description", ":star2: Stars", ":robot: Models", ":date: Updated", ":balance_scale: License"]

  /** Each title underlined with as many dashes as it has characters. */
  function Dashes(cells: seq<string>): (r: seq<string>)
    ensures |r| == |cells|
    ensures forall k :: 0 <= k < |cells| ==> r[k] == Repeat('-', |cells[k]|)
  {
    if cells == [] then [] else [Repeat('-', |cells[0]|)] + Dashes(cells[1..])
  }

  /** The header's first line. */
  const HeaderNames: string := Bar(HeaderCells)

  /** The header's second line, the markdown rule under the titles. */
  const HeaderRule: string := Bar(Dashes(HeaderCells))

  /** Neither a line break nor a bar. */
  predicate Plain(cell: string) {
    '\n' !in cell && '|' !in cell
  }

  lemma HeaderCellsPlain()
    ensures forall k :: 0 <= k < |HeaderCells| ==> '\n' !in HeaderCells[k] && '|' !in HeaderCells[k]
  {
    assert Plain(":ab: Name");
    assert Plain(":notebook: Description");
    assert Plain(":star2: Stars");
    assert Plain(":robot: Models");
    assert Plain(":date: Updated");
    assert Plain(":balance_scale: License");
    forall k | 0 <= k < |HeaderCells|
      ensures Plain(HeaderCells[k])
    {
    }
  }

  /**
   * The header is two lines of six columns each, every rule as wide as the
   * title above it.
   */
  lemma HeaderShape()
    ensures '\n' !in HeaderNames && '\n' !in HeaderRule
    ensures |Split(HeaderNames, '|')| == 8 && |Split(HeaderRule, '|')| == 8
    ensures forall k :: 0 <= k < 8 ==> |Split(HeaderNames, '|')[k]| == |Split(HeaderRule, '|')[k]|
  {
    HeaderCellsPlain();
    DashesPlain(HeaderCells);
    AlignedBars(HeaderCells, Dashes(HeaderCells));
  }

  lemma DashesPlain(cells: seq<string>)
    ensures forall k :: 0 <= k < |cells| ==> Plain(Dashes(cells)[k]) && |Dashes(cells)[k]| == |cells[k]|
  {
    forall k | 0 <= k < |cells|
      ensures Plain(Dashes(cells)[k])
    {
      var d := Dashes(cells)[k];
      assert forall i :: 0 <= i < |d| ==> d[i] == '-';
    }
  }

  /**
   * Two lines made of plain cells of the same widths are single lines with
   * as many columns, and the columns have the same widths.
   */
  lemma AlignedBars(a: seq<string>, b: seq<string>)
    requires a != [] && |a| == |b|
    requires forall k :: 0 <= k < |a| ==> Plain(a[k]) && Plain(b[k]) && |a[k]| == |b[k]|
    ensures '\n' !in Bar(a) && '\n' !in Bar(b)
    ensures |Split(Bar(a), '|')| == |a| + 2 == |Split(Bar(b), '|')|
    ensures forall k :: 0 <= k < |a| + 2 ==> |Split(Bar(a), '|')[k]| == |Split(Bar(b), '|')[k]|
  {
    BarOneLine(a);
    BarOneLine(b);
    BarColumns(a);
    BarColumns(b);
    BorderedWidths(a, b);
  }

  lemma BorderedWidths(a: seq<string>, b: seq<string>)
    requires |a| == |b|
    requires forall k :: 0 <= k < |a| ==> |a[k]| == |b[k]|
    ensures forall k :: 0 <= k < |a| + 2 ==>
              |([""] + Bordered(a) + [""])[k]| == |([""] + Bordered(b) + [""])[k]|
  {
    var ca, cb := [""] + Bordered(a) + [""], [""] + Bordered(b) + [""];
    forall k | 0 <= k < |a| + 2
      ensures |ca[k]| == |cb[k]|
    {
      if k == 0 {
        assert ca[k] == "" && cb[k] == "";
      } else if k == |a| + 1 {
        assert ca[k] == "" && cb[k] == "";
      } else {
        assert ca[k] == Bordered(a)[k - 1] && cb[k] == Bordered(b)[k - 1];
      }
    }
  }

  /** No text of a row holds the character `c`. */
  predicate Lacks(row: Row, c: char) {
    c !in row.name && c !in row.url && c !in row.lastCommitDate &&
    (row.description.Some? ==> c !in row.description.value) &&
    (row.license.Some? ==> c !in row.license.value.name &&
                           (row.license.value.url.Some? ==> c !in row.license.value.url.value)) &&
    forall m :: m in row.models ==> c !in m.name && c !in m.url
  }

  /** No text of a row holds a line break. */
  predicate OneLine(row: Row) {
    Lacks(row, '\n')
  }

  /** A line break or a bar: neither occurs in the fixed text of the cells. */
  predicate Separator(c: char) {
    c == '\n' || c == '|'
  }

  lemma ModelsCellLacks(models: set<AiModels.Model>, c: char)
    requires Separator(c)
    requires forall m :: m in models ==> c !in m.name && c !in m.url
    ensures c !in ModelsCell(models)
  {
    if models != {} {
      var tags := SortedSet(Tags(models));
      TagsExclude(models, c);
      assert forall k :: 0 <= k < |tags| ==> tags[k] in tags;
      JoinExcludes(tags, " ", c);
    }
  }

  lemma LicenseCellLacks(license: Option<License>, c: char)
    requires Separator(c)
    requires license.Some? ==> c !in license.value.name &&
                               (license.value.url.Some? ==> c !in license.value.url.value)
    ensures c !in LicenseCell(license)
  {
    if license.Some? && license.value.url.Some? && license.value.url.value != "" {
      Markdown.LinkExcludes(RemoveAll(license.value.name, LicenseSuffix), license.value.url.value, c);
    }
  }

  lemma RowLineOneLine(row: Row)
    requires OneLine(row)
    ensures '\n' !in RowLine(row)
  {
    CellsLack(row, '\n');
    BarOneLine(Cells(row));
  }

  lemma CellsLack(row: Row, c: char)
    requires Separator(c) && Lacks(row, c)
    ensures forall k :: 0 <= k < |Cells(row)| ==> c !in Cells(row)[k]
  {
    LabelLacks(row, c);
    DescriptionLacks(row.description, c);
    StarsLack(row.starCount, c);
    ModelsCellLacks(row.models, c);
    LicenseCellLacks(row.license, c);
    SixLack(Cells(row), c);
  }

  lemma LabelLacks(row: Row, c: char)
    requires Separator(c) && c !in row.name && c !in row.url
    ensures c !in RepositoryLabel(row)
  {
    Markdown.LinkExcludes(row.name, row.url, c);
  }

  lemma DescriptionLacks(description: Option<string>, c: char)
    requires Separator(c)
    requires description.Some? ==> c !in description.value
    ensures c !in DescriptionCell(description)
  {
    assert c !in NoDescription;
  }

  lemma StarsLack(starCount: int, c: char)
    requires Separator(c)
    ensures c !in StarsCell(starCount)
  {
    assert c !in IntToString(starCount);
  }

  lemma SixLack(cells: seq<string>, c: char)
    requires |cells| == 6
    requires c !in cells[0] && c !in cells[1] && c !in cells[2]
    requires c !in cells[3] && c !in cells[4] && c !in cells[5]
    ensures forall k :: 0 <= k < |cells| ==> c !in cells[k]
  {
  }

  /**
   * A row's line splits at its bars into the six columns of the header, in
   * the header's order, each cell padded with one space on each side, when
   * no text of the row holds a bar.
   */
  lemma RowColumns(row: Row)
    requires Lacks(row, '|')
    ensures |Split(RowLine(row), '|')| == |HeaderCells| + 2
    ensures Split(RowLine(row), '|')[0] == "" && Split(RowLine(row), '|')[7] == ""
    ensures Split(RowLine(row), '|')[1] == " " + RepositoryLabel(row) + " "
    ensures Split(RowLine(row), '|')[2] == " " + DescriptionCell(row.description) + " "
    ensures Split(RowLine(row), '|')[3] == " " + StarsCell(row.starCount) + " "
    ensures Split(RowLine(row), '|')[4] == " " + ModelsCell(row.models) + " "
    ensures Split(RowLine(row), '|')[5] == " " + row.lastCommitDate + " "
    ensures Split(RowLine(row), '|')[6] == " " + LicenseCell(row.license) + " "
  {
    CellsLack(row, '|');
    BarColumns(Cells(row));
    SixColumns(Split(RowLine(row), '|'), Cells(row));
  }

  lemma SixColumns(parts: seq<string>, cells: seq<string>)
    requires |cells| == 6 && parts == [""] + Bordered(cells) + [""]
    ensures |parts| == 8 && parts[0] == "" && parts[7] == ""
    ensures forall k :: 0 <= k < 6 ==> parts[k + 1] == " " + cells[k] + " "
  {
  }

  /** `f` applied to each element, in order. */
  function Map<T, U>(xs: seq<T>, f: T -> U): (r: seq<U>)
    ensures |r| == |xs|
    ensures forall k :: 0 <= k < |xs| ==> r[k] == f(xs[k])
  {
    if xs == [] then [] else Map(xs[..|xs| - 1], f) + [f(xs[|xs| - 1])]
  }

  lemma MapSnoc<T, U>(xs: seq<T>, f: T -> U, i: nat)
    requires i < |xs|
    ensures Map(xs[..i + 1], f) == Map(xs[..i], f) + [f(xs[i])]
  {
    assert xs[..i + 1][..i] == xs[..i];
  }

  /** One line per row, in the order of the rows. */
  function RowLines(rows: seq<Row>): seq<string> {
    Map(rows, RowLine)
  }

  /** The header followed by the lines in ascending order, joined by line breaks. */
  function TableText(lines: seq<string>): string {
    Join([HeaderNames, HeaderRule] + Sort(lines), "\n")
  }

  /**
   * The text splits back into the two header lines and the lines in
   * ascending order, each once, when no line holds a line break.
   */
  lemma TableTextLines(lines: seq<string>)
    requires forall k :: 0 <= k < |lines| ==> '\n' !in lines[k]
    ensures Split(TableText(lines), '\n') == [HeaderNames, HeaderRule] + Sort(lines)
  {
    HeaderShape();
    SortKeepsLines(lines);
    HeadedLines(HeaderNames, HeaderRule, Sort(lines));
  }

  /** Two heading lines and then some more, joined by line breaks, split back apart. */
  lemma HeadedLines(first: string, second: string, rest: seq<string>)
    requires '\n' !in first && '\n' !in second
    requires forall k :: 0 <= k < |rest| ==> '\n' !in rest[k]
    ensures Split(Join([first, second] + rest, "\n"), '\n') == [first, second] + rest
  {
    HeadedNoBreaks(first, second, rest);
    SplitJoin([first, second] + rest, '\n');
  }

  lemma HeadedNoBreaks(first: string, second: string, rest: seq<string>)
    requires '\n' !in first && '\n' !in second
    requires forall k :: 0 <= k < |rest| ==> '\n' !in rest[k]
    ensures forall k :: 0 <= k < |[first, second] + rest| ==> '\n' !in ([first, second] + rest)[k]
  {
    var parts := [first, second] + rest;
    forall k | 0 <= k < |parts|
      ensures '\n' !in parts[k]
    {
      if k == 0 {
        assert parts[k] == first;
      } else if k == 1 {
        assert parts[k] == second;
      } else {
        assert parts[k] == rest[k - 2];
      }
    }
  }

  lemma SortKeepsLines(lines: seq<string>)
    requires forall k :: 0 <= k < |lines| ==> '\n' !in lines[k]
    ensures forall k :: 0 <= k < |Sort(lines)| ==> '\n' !in Sort(lines)[k]
  {
    var sorted := Sort(lines);
    forall k | 0 <= k < |sorted|
      ensures '\n' !in sorted[k]
    {
      assert sorted[k] in multiset(lines);
      var j :| 0 <= j < |lines| && lines[j] == sorted[k];
    }
  }

  /**
   * What `_serialize_github_table` returns: None for no rows, otherwise the
   * table text of the rows' lines.
   */
  function SerializedTable(rows: seq<Row>): (r: Option<string>)
    ensures r == None <==> rows == []
  {
    if rows == [] then None else Some(TableText(RowLines(rows)))
  }

  /** `_serialize_github_table`. */
  method SerializeGithubTable(rows: seq<Row>) returns (r: Option<string>)
    ensures r == SerializedTable(rows)
  {
    if rows == [] {
      return None;
    }
    var tables: seq<string> := [];
    for i := 0 to |rows|
      invariant tables == RowLines(rows[..i])
    {
      tables := tables + [RowLine(rows[i])];
      MapSnoc(rows, RowLine, i);
    }
    assert rows[..|rows|] == rows;
    r := Some(TableText(tables));
  }

  /**
   * The table's lines are the two header lines followed by exactly one line
   * per row, in ascending order, when no row holds a line break.
   */
  lemma SerializedTableLines(rows: seq<Row>)
    requires rows != []
    requires forall k :: 0 <= k < |rows| ==> OneLine(rows[k])
    ensures var lines := Split(SerializedTable(rows).value, '\n');
            |lines| == |rows| + 2 && lines[0] == HeaderNames && lines[1] == HeaderRule &&
            Sorted(lines[2..]) && multiset(lines[2..]) == multiset(RowLines(rows))
  {
    var lines := RowLines(rows);
    forall k | 0 <= k < |lines|
      ensures '\n' !in lines[k]
    {
      RowLineOneLine(rows[k]);
    }
    TableTextLines(lines);
    SortSorted(lines);
    assert ([HeaderNames, HeaderRule] + Sort(lines))[2..] == Sort(lines);
  }

  /** `_UnknownRow`: a plugin url that is not a GitHub repository. */
  datatype UnknownRow = UnknownRow(url: string)

  /** `_Tables`: the GitHub tables by category, and the unknown plugins. */
  datatype Tables = Tables(github: map<string, seq<Row>>, unknown: seq<UnknownRow>)

  /** `_Tables.is_empty`: there is neither a GitHub table nor an unknown plugin. */
  function IsEmpty(tables: Tables): (r: bool)
    ensures r <==> |tables.github| == 0 && |tables.unknown| == 0
  {
    tables.github == map[] && tables.unknown == []
  }

  /** A category's section: its capitalized name underlined with `=`, a blank line, then the table. */
  function Section(name: string, table: string): string {
    Capitalize(name) + "\n" + Repeat('=', |name|) + "\n\n" + table
  }

  /**
   * A section's lines are the heading, an underline as long as the name, a
   * blank line, and then the table's own lines.
   */
  lemma SectionLines(name: string, table: string)
    requires '\n' !in name
    ensures Split(Section(name, table), '\n') ==
              [Capitalize(name), Repeat('=', |name|), ""] + Split(table, '\n')
  {
    var cap := Capitalize(name);
    var rule := Repeat('=', |name|);
    CapitalizeExcludes(name, '\n');
    assert '\n' !in rule;
    assert Section(name, table) == cap + ['\n'] + rule + ['\n', '\n'] + table;
    ThreeLines(cap, rule, table, '\n');
  }

  /** Two lines and a blank one in front of a text add those three lines in front of its own. */
  lemma ThreeLines(a: string, b: string, t: string, sep: char)
    requires sep !in a && sep !in b
    ensures Split(a + [sep] + b + [sep, sep] + t, sep) == [a, b, []] + Split(t, sep)
  {
    var inner := [] + [sep] + t;
    var middle := b + [sep] + inner;
    ThreeLinesText(a, b, t, sep);
    SplitConcat(a, middle, sep);
    SplitConcat(b, inner, sep);
    SplitConcat([], t, sep);
    SplitSingle(a, sep);
    SplitSingle(b, sep);
    SplitSingle([], sep);
    ThreeLinesParts(a, b, Split(t, sep));
  }

  lemma ThreeLinesText(a: string, b: string, t: string, sep: char)
    ensures a + [sep] + b + [sep, sep] + t == a + [sep] + (b + [sep] + ([] + [sep] + t))
  {
  }

  lemma ThreeLinesParts(a: string, b: string, rest: seq<string>)
    ensures [a] + ([b] + ([[]] + rest)) == [a, b, []] + rest
  {
  }

  /** A category's name and its rows, as `tables.github.items()` yields them. */
  type Item = (string, seq<Row>)

  /**
   * What the loop of `_get_tables_as_lines` computes from `output` onwards,
   * with `serialize` writing a table: one section per item, or the error for
   * the first table that cannot be written.
   */
  function SectionsFrom(items: seq<Item>, serialize: seq<Row> -> Option<string>, output: seq<string>)
    : Result<seq<string>>
  {
    if items == [] then Ok(output)
    else
      match serialize(items[0].1)
      case None => Err(TableNotSerialized(items[0].0))
      case Some(table) => SectionsFrom(items[1..], serialize, output + [Section(items[0].0, table)])
  }

  /** The categories in ascending order. */
  function Categories(tables: Tables): (r: seq<string>)
    ensures forall k :: 0 <= k < |r| ==> r[k] in tables.github
  {
    var r := SortedSet(tables.github.Keys);
    assert forall k :: 0 <= k < |r| ==> r[k] in r;
    r
  }

  /** Every category once, in ascending order. */
  lemma CategoriesSorted(tables: Tables)
    ensures forall name :: name in tables.github <==> name in Categories(tables)
    ensures |Categories(tables)| == |tables.github|
    ensures StrictlySorted(Categories(tables))
  {
  }

  /** The items of `names`, in that order. */
  function ItemsOf(names: seq<string>, github: map<string, seq<Row>>): (r: seq<Item>)
    requires forall k :: 0 <= k < |names| ==> names[k] in github
    ensures |r| == |names|
    ensures forall k :: 0 <= k < |names| ==> r[k] == (names[k], github[names[k]])
  {
    if names == [] then [] else [(names[0], github[names[0]])] + ItemsOf(names[1..], github)
  }

  /** `sorted(tables.github.items())`: the categories and their rows, by ascending name. */
  function Items(tables: Tables): (r: seq<Item>)
    ensures |r| == |Categories(tables)|
    ensures forall k :: 0 <= k < |r| ==>
              r[k].0 == Categories(tables)[k] && r[k].1 == tables.github[r[k].0]
  {
    ItemsOf(Categories(tables), tables.github)
  }

  /**
   * What `_get_tables_as_lines` returns: the sections, unless a table is
   * empty or there are unknown plugins, whose rendering is not written and
   * raises NotImplementedError.
   */
  function TablesAsLines(tables: Tables): Result<seq<string>> {
    match SectionsFrom(Items(tables), SerializedTable, [])
    case Err(e) => Err(e)
    case Ok(output) => if tables.unknown != [] then Err(UnknownTableNotImplemented) else Ok(output)
  }

  /** `_get_tables_as_lines`. */
  method GetTablesAsLines(tables: Tables) returns (r: Result<seq<string>>)
    ensures r == TablesAsLines(tables)
  {
    var items := Items(tables);
    var output: seq<string> := [];
    for i := 0 to |items|
      invariant SectionsFrom(items, SerializedTable, []) == SectionsFrom(items[i..], SerializedTable, output)
    {
      var (name, rows) := items[i];
      var header := Capitalize(name) + "\n" + Repeat('=', |name|);
      var table := SerializeGithubTable(rows);
      SectionsFromStep(items, SerializedTable, i, output);
      if table == None {
        return Err(TableNotSerialized(name));
      }
      output := output + [header + "\n\n" + table.value];
    }
    assert items[|items|..] == [];
    if tables.unknown != [] {
      return Err(UnknownTableNotImplemented);
    }
    r := Ok(output);
  }

  /** One turn of the loop of `_get_tables_as_lines`. */
  lemma SectionsFromStep(items: seq<Item>, serialize: seq<Row> -> Option<string>, i: nat, output: seq<string>)
    requires i < |items|
    ensures serialize(items[i].1) == None ==>
              SectionsFrom(items[i..], serialize, output) == Err(TableNotSerialized(items[i].0))
    ensures serialize(items[i].1).Some? ==>
              SectionsFrom(items[i..], serialize, output)
                == SectionsFrom(items[i + 1..], serialize, output + [Section(items[i].0, serialize(items[i].1).value)])
  {
    assert items[i..][0] == items[i];
    assert items[i..][1..] == items[i + 1..];
  }

  /** The loop fails exactly when `serialize` refuses a table, and then names the first such table. */
  lemma {:induction false} SectionsFromOk(items: seq<Item>, serialize: seq<Row> -> Option<string>, output: seq<string>)
    ensures SectionsFrom(items, serialize, output).Ok? <==>
              forall k :: 0 <= k < |items| ==> serialize(items[k].1).Some?
    ensures SectionsFrom(items, serialize, output).Err? ==>
              exists j :: 0 <= j < |items| && serialize(items[j].1) == None &&
                          (forall k :: 0 <= k < j ==> serialize(items[k].1).Some?) &&
                          SectionsFrom(items, serialize, output).error == TableNotSerialized(items[j].0)
  {
    if items != [] && serialize(items[0].1).Some? {
      var next := output + [Section(items[0].0, serialize(items[0].1).value)];
      SectionsFromOk(items[1..], serialize, next);
      TailAllSome(items, serialize);
      if SectionsFrom(items, serialize, output).Err? {
        var j :| 0 <= j < |items[1..]| && serialize(items[1..][j].1) == None &&
                 (forall k :: 0 <= k < j ==> serialize(items[1..][k].1).Some?) &&
                 SectionsFrom(items[1..], serialize, next).error == TableNotSerialized(items[1..][j].0);
        ShiftFirstRefused(items, serialize, j);
      }
    }
  }

  lemma TailAllSome(items: seq<Item>, serialize: seq<Row> -> Option<string>)
    requires items != [] && serialize(items[0].1).Some?
    ensures (forall k :: 0 <= k < |items| ==> serialize(items[k].1).Some?) <==>
            (forall k :: 0 <= k < |items[1..]| ==> serialize(items[1..][k].1).Some?)
  {
    if forall k :: 0 <= k < |items[1..]| ==> serialize(items[1..][k].1).Some? {
      forall k | 0 <= k < |items|
        ensures serialize(items[k].1).Some?
      {
        if k > 0 {
          assert items[k] == items[1..][k - 1];
        }
      }
    }
  }

  lemma ShiftFirstRefused(items: seq<Item>, serialize: seq<Row> -> Option<string>, j: nat)
    requires items != [] && serialize(items[0].1).Some?
    requires j < |items[1..]| && serialize(items[1..][j].1) == None
    requires forall k :: 0 <= k < j ==> serialize(items[1..][k].1).Some?
    ensures serialize(items[j + 1].1) == None && items[j + 1] == items[1..][j]
    ensures forall k :: 0 <= k < j + 1 ==> serialize(items[k].1).Some?
  {
    forall k | 0 <= k < j + 1
      ensures serialize(items[k].1).Some?
    {
      if k > 0 {
        assert items[k] == items[1..][k - 1];
      }
    }
  }

  /** One section per item, in order: what the loop appends when every table can be written. */
  function AllSections(items: seq<Item>, serialize: seq<Row> -> Option<string>): (r: seq<string>)
    requires forall k :: 0 <= k < |items| ==> serialize(items[k].1).Some?
    ensures |r| == |items|
  {
    if items == [] then []
    else [Section(items[0].0, serialize(items[0].1).value)] + AllSections(items[1..], serialize)
  }

  /** The `k`-th section is the section of the `k`-th item. */
  lemma {:induction false} SectionAt(items: seq<Item>, serialize: seq<Row> -> Option<string>, k: nat)
    requires forall k :: 0 <= k < |items| ==> serialize(items[k].1).Some?
    requires k < |items|
    ensures AllSections(items, serialize)[k] == Section(items[k].0, serialize(items[k].1).value)
  {
    if k > 0 {
      SectionAt(items[1..], serialize, k - 1);
      assert items[1..][k - 1] == items[k];
    }
  }

  /** When every table can be written, the loop appends exactly one section per item, in order. */
  lemma {:induction false} SectionsFromValue(items: seq<Item>, serialize: seq<Row> -> Option<string>, output: seq<string>)
    requires forall k :: 0 <= k < |items| ==> serialize(items[k].1).Some?
    ensures SectionsFrom(items, serialize, output) == Ok(output + AllSections(items, serialize))
  {
    if items == [] {
      assert output + [] == output;
    } else {
      var first := Section(items[0].0, serialize(items[0].1).value);
      SectionsFromValue(items[1..], serialize, output + [first]);
      assert output + [first] + AllSections(items[1..], serialize) == output + AllSections(items, serialize);
    }
  }

  /**
   * `_get_tables_as_lines` succeeds exactly when every table has a row and
   * there is no unknown plugin. An empty table raises naming the first such
   * category in ascending order; otherwise unknown plugins raise
   * NotImplementedError.
   */
  lemma TablesAsLinesOk(tables: Tables)
    ensures TablesAsLines(tables).Ok? <==>
              tables.unknown == [] && forall name :: name in tables.github ==> tables.github[name] != []
    ensures TablesAsLines(tables).Err? && TablesAsLines(tables).error.TableNotSerialized? ==>
              var name := TablesAsLines(tables).error.name;
              name in tables.github && tables.github[name] == [] &&
              exists j :: 0 <= j < |Categories(tables)| && Categories(tables)[j] == name &&
                          forall k :: 0 <= k < j ==> tables.github[Categories(tables)[k]] != []
    ensures TablesAsLines(tables).Err? && !TablesAsLines(tables).error.TableNotSerialized? ==>
              TablesAsLines(tables).error == UnknownTableNotImplemented &&
              forall name :: name in tables.github ==> tables.github[name] != []
  {
    SectionsFromOk(Items(tables), SerializedTable, []);
    EveryCategory(tables, SerializedTable);
    if SectionsFrom(Items(tables), SerializedTable, []).Err? {
      FirstEmptyCategory(tables, SerializedTable);
    }
  }

  /** Every table has a row exactly when every item's table can be written. */
  lemma EveryCategory(tables: Tables, serialize: seq<Row> -> Option<string>)
    requires forall rows :: serialize(rows) == None <==> rows == []
    ensures (forall k :: 0 <= k < |Items(tables)| ==> serialize(Items(tables)[k].1).Some?) <==>
            (forall name :: name in tables.github ==> tables.github[name] != [])
  {
    var items := Items(tables);
    if forall k :: 0 <= k < |items| ==> serialize(items[k].1).Some? {
      WrittenHasRows(tables, serialize);
    }
    if forall name :: name in tables.github ==> tables.github[name] != [] {
      RowsAreWritten(tables, serialize);
    }
  }

  lemma WrittenHasRows(tables: Tables, serialize: seq<Row> -> Option<string>)
    requires forall rows :: serialize(rows) == None <==> rows == []
    requires forall k :: 0 <= k < |Items(tables)| ==> serialize(Items(tables)[k].1).Some?
    ensures forall name :: name in tables.github ==> tables.github[name] != []
  {
    var items := Items(tables);
    forall name | name in tables.github
      ensures tables.github[name] != []
    {
      var k := CategoryIndex(tables, name);
      assert items[k].1 == tables.github[name];
    }
  }

  lemma RowsAreWritten(tables: Tables, serialize: seq<Row> -> Option<string>)
    requires forall rows :: serialize(rows) == None <==> rows == []
    requires forall name :: name in tables.github ==> tables.github[name] != []
    ensures forall k :: 0 <= k < |Items(tables)| ==> serialize(Items(tables)[k].1).Some?
  {
    var items := Items(tables);
    forall k | 0 <= k < |items|
      ensures serialize(items[k].1).Some?
    {
      assert items[k].1 == tables.github[items[k].0];
    }
  }

  /** Where a category sits among the categories in ascending order. */
  lemma CategoryIndex(tables: Tables, name: string) returns (k: nat)
    requires name in tables.github
    ensures k < |Categories(tables)| && Categories(tables)[k] == name
  {
    CategoriesSorted(tables);
    var names := Categories(tables);
    assert name in names;
    k :| 0 <= k < |names| && names[k] == name;
  }

  /**
   * The table an error names is empty, and every category before it in
   * ascending order has rows.
   */
  lemma FirstEmptyCategory(tables: Tables, serialize: seq<Row> -> Option<string>)
    requires forall rows :: serialize(rows) == None <==> rows == []
    requires SectionsFrom(Items(tables), serialize, []).Err?
    requires SectionsFrom(Items(tables), serialize, []).error.TableNotSerialized?
    ensures var name := SectionsFrom(Items(tables), serialize, []).error.name;
            name in tables.github && tables.github[name] == [] &&
            exists j :: 0 <= j < |Categories(tables)| && Categories(tables)[j] == name &&
                        forall k :: 0 <= k < j ==> tables.github[Categories(tables)[k]] != []
  {
    var items := Items(tables);
    var names := Categories(tables);
    SectionsFromOk(items, serialize, []);
    var j :| 0 <= j < |items| && serialize(items[j].1) == None &&
             (forall k :: 0 <= k < j ==> serialize(items[k].1).Some?) &&
             SectionsFrom(items, serialize, []).error == TableNotSerialized(items[j].0);
    assert items[j].0 == names[j];
    forall k | 0 <= k < j
      ensures tables.github[names[k]] != []
    {
      assert items[k].1 == tables.github[names[k]];
    }
  }

  /**
   * When `_get_tables_as_lines` succeeds it returns one section per
   * category, in ascending order of the category's name.
   */
  lemma TablesAsLinesValue(tables: Tables)
    requires TablesAsLines(tables).Ok?
    ensures |TablesAsLines(tables).value| == |Categories(tables)| == |tables.github|
    ensures forall k :: 0 <= k < |Categories(tables)| ==>
              var name := Categories(tables)[k];
              tables.github[name] != [] &&
              TablesAsLines(tables).value[k] == Section(name, TableText(RowLines(tables.github[name])))
  {
    TablesAsLinesSections(tables);
    CategoriesSorted(tables);
    forall k | 0 <= k < |Categories(tables)|
      ensures var name := Categories(tables)[k];
              tables.github[name] != [] &&
              TablesAsLines(tables).value[k] == Section(name, TableText(RowLines(tables.github[name])))
    {
      SectionOfCategory(tables, k);
    }
  }

  /** The lines are the sections of the items, when every table can be written. */
  lemma TablesAsLinesSections(tables: Tables)
    requires TablesAsLines(tables).Ok?
    ensures forall k :: 0 <= k < |Items(tables)| ==> SerializedTable(Items(tables)[k].1).Some?
    ensures TablesAsLines(tables).value == AllSections(Items(tables), SerializedTable)
  {
    var items := Items(tables);
    SectionsFromOk(items, SerializedTable, []);
    SectionsFromValue(items, SerializedTable, []);
    assert [] + AllSections(items, SerializedTable) == AllSections(items, SerializedTable);
  }

  lemma SectionOfCategory(tables: Tables, k: nat)
    requires TablesAsLines(tables).Ok? && k < |Categories(tables)|
    ensures |TablesAsLines(tables).value| == |Categories(tables)|
    ensures var name := Categories(tables)[k];
            tables.github[name] != [] &&
            TablesAsLines(tables).value[k] == Section(name, TableText(RowLines(tables.github[name])))
  {
    TablesAsLinesSections(tables);
    SectionAt(Items(tables), SerializedTable, k);
  }

  /** No tables, no lines. */
  lemma EmptyTablesHaveNoLines(tables: Tables)
    requires IsEmpty(tables)
    ensures TablesAsLines(tables) == Ok([])
  {
    CategoriesSorted(tables);
    assert Items(tables) == [];
  }
}
