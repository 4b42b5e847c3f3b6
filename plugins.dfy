/**
 * The list of plugins kept at the top of README.md: how `_get_reader_header`
 * writes it as a sorted bullet list inside a code fence, and how the line
 * loop of `_get_plugin_urls` reads the fenced text back.
 */
module PluginList {
  import opened Wrappers
  import opened Strings
  import opened StringOrder

  /** `_ALL_PLUGINS_MARKER`. */
  const AllPluginsMarker: string := "All Plugins"

  /** `_MARKDOWN_FENCE_MARKER`. */
  const FenceMarker: string := "```"

  /** `f"- {name}"` for each plugin, sorted, one per line. */
  function BulletBlock(names: seq<string>): string {
    Join(Sort(Prefixed("- ", names)), "\n")
  }

  const Title: string := "This is a list of Neovim AI plugins."

  /** The date line up to the date, which is written in double quotes. */
  const UpdatedOn: string := "This page is auto-generated and was last updated on \""

  /** The lines of the template in front of the bullet list, for the day `date`. */
  function PreambleLines(date: string): seq<string> {
    [Title,
     UpdatedOn + date + "\"",
     "",
     "<details>",
     "<summary>" + AllPluginsMarker + "</summary>",
     "",
     FenceMarker]
  }

  /** The lines of the template after the bullet list; the text ends with a line break. */
  const PostambleLines: seq<string> := [FenceMarker, "</details>", ""]

  /**
   * `_get_reader_header`: the dedented template, line by line, with the
   * bullet list put in place of `{plugins}`; `date` is what
   * `now.strftime('%Y-%m-%d')` gives.
   */
  function ReaderHeader(date: string, names: seq<string>): string {
    Join(PreambleLines(date) + [BulletBlock(names)] + PostambleLines, "\n")
  }

  /** A plugin name the bullet list carries unchanged: non-empty, one line, no surrounding whitespace. */
  predicate Plain(name: string) {
    name != [] && !IsSpace(name[0]) && !IsSpace(name[|name| - 1]) && '\n' !in name
  }

  predicate AllPlain(names: seq<string>) {
    forall k :: 0 <= k < |names| ==> Plain(names[k])
  }

  /**
   * The header holds the template's lines, then one bullet per plugin in
   * sorted order, then the closing fence and `</details>`.
   */
  lemma ReaderHeaderLines(date: string, names: seq<string>)
    requires '\n' !in date && names != [] && AllPlain(names)
    ensures Split(ReaderHeader(date, names), '\n')
            == PreambleLines(date) + Sort(Prefixed("- ", names)) + PostambleLines
  {
    var pre := PreambleLines(date);
    var bullets := Sort(Prefixed("- ", names));
    BulletsOneLine(names);
    JoinMiddle(pre, bullets, PostambleLines, "\n");
    PreambleOneLine(date);
    PostambleOneLine();
    OneLineConcat(pre, bullets);
    OneLineConcat(pre + bullets, PostambleLines);
    SplitJoin(pre + bullets + PostambleLines, '\n');
  }

  /** Joining the middle run on its own first gives the same text as joining all parts. */
  lemma JoinMiddle(a: seq<string>, m: seq<string>, b: seq<string>, sep: string)
    requires a != [] && m != [] && b != []
    ensures Join(a + [Join(m, sep)] + b, sep) == Join(a + m + b, sep)
  {
    JoinConcat(a, [Join(m, sep)], sep);
    JoinConcat(a + [Join(m, sep)], b, sep);
    JoinConcat(a, m, sep);
    JoinConcat(a + m, b, sep);
  }

  lemma PreambleOneLine(date: string)
    requires '\n' !in date
    ensures forall k :: 0 <= k < |PreambleLines(date)| ==> '\n' !in PreambleLines(date)[k]
  {
    var p := PreambleLines(date);
    TitleOneLine();
    DateLineOneLine(date);
    SummaryOneLine();
    assert '\n' !in FenceMarker;
    assert '\n' !in "<details>";
    forall k | 0 <= k < |p|
      ensures '\n' !in p[k]
    {
      if k == 0 { assert p[k] == Title; }
      else if k == 1 { assert p[k] == UpdatedOn + date + "\""; }
      else if k == 4 { assert p[k] == "<summary>" + AllPluginsMarker + "</summary>"; }
    }
  }

  lemma TitleOneLine()
    ensures '\n' !in Title
  {
  }

  lemma DateLineOneLine(date: string)
    requires '\n' !in date
    ensures '\n' !in UpdatedOn + date + "\""
  {
    UpdatedOnOneLine();
  }

  lemma UpdatedOnOneLine()
    ensures '\n' !in UpdatedOn
  {
    UpdatedOnParts();
    var head, tail := "This page is auto-generated ", "and was last updated on \"";
    assert '\n' !in head && '\n' !in tail;
  }

  lemma UpdatedOnParts()
    ensures UpdatedOn == "This page is auto-generated " + "and was last updated on \""
  {
  }

  lemma SummaryOneLine()
    ensures '\n' !in "<summary>" + AllPluginsMarker + "</summary>"
  {
    assert '\n' !in "<summary>";
    assert '\n' !in AllPluginsMarker;
    assert '\n' !in "</summary>";
  }

  lemma PostambleOneLine()
    ensures forall k :: 0 <= k < |PostambleLines| ==> '\n' !in PostambleLines[k]
  {
    assert '\n' !in FenceMarker;
    assert '\n' !in "</details>";
  }

  /** Every bullet line is one line. */
  lemma BulletsOneLine(names: seq<string>)
    requires AllPlain(names)
    ensures forall k :: 0 <= k < |Sort(Prefixed("- ", names))| ==> '\n' !in Sort(Prefixed("- ", names))[k]
  {
    SortPrefixed("- ", names);
    SortPlain(names);
    PrefixedOneLine(Sort(names));
  }

  lemma OneLineConcat(a: seq<string>, b: seq<string>)
    requires forall k :: 0 <= k < |a| ==> '\n' !in a[k]
    requires forall k :: 0 <= k < |b| ==> '\n' !in b[k]
    ensures forall k :: 0 <= k < |a + b| ==> '\n' !in (a + b)[k]
  {
    forall k | 0 <= k < |a + b|
      ensures '\n' !in (a + b)[k]
    {
      if k >= |a| {
        assert (a + b)[k] == b[k - |a|];
      } else {
        assert (a + b)[k] == a[k];
      }
    }
  }

  /** Joining two non-empty runs of parts puts the separator between the two joined texts. */
  lemma {:induction false} JoinConcat(a: seq<string>, b: seq<string>, sep: string)
    requires a != [] && b != []
    ensures Join(a + b, sep) == Join(a, sep) + sep + Join(b, sep)
  {
    if |a| > 1 {
      assert (a + b)[1..] == a[1..] + b;
      JoinConcat(a[1..], b, sep);
    } else {
      assert (a + b)[1..] == b;
    }
  }

  /**
   * `_BULLETPOINT_EXPRESSION.match(line)` for `^\s*-\s*(?P<text>.+)$`: the
   * text group, if the line matches. The group takes everything after the
   * dash and the whitespace behind it; if that leaves nothing, the greedy
   * `\s*` gives back its last character. The loop only passes lines of a
   * text split at line breaks, so a line never holds one.
   */
  function BulletMatch(line: string): (r: Option<string>)
    ensures r.Some? ==> r.value != []
  {
    var s := TrimStart(line);
    if s == [] || s[0] != '-' then None
    else
      var t := TrimStart(s[1..]);
      if t != [] then Some(t)
      else if |s| >= 2 then Some(s[|s| - 1..])
      else None
  }

  /** On a stripped line, the expression matches exactly a dash followed by more text. */
  lemma BulletMatchStripped(line: string)
    requires line != [] && Strip(line) == line
    ensures BulletMatch(line).Some? <==> |line| >= 2 && line[0] == '-'
    ensures BulletMatch(line).Some? ==> BulletMatch(line).value == TrimStart(line[1..])
  {
    assert !IsSpace(line[0]) && !IsSpace(line[|line| - 1]);
    assert TrimStart(line) == line;
    if |line| >= 2 && line[0] == '-' {
      var rest := line[1..];
      assert rest[|rest| - 1] == line[|line| - 1];
      assert TrimStart(rest) != [];
    }
  }

  /** The dash of a bullet is not whitespace, so neither end of it is trimmed. */
  lemma BulletStripped(name: string, line: string)
    requires Plain(name) && line == "- " + name
    ensures Strip(line) == line
  {
    assert line[|line| - 1] == name[|name| - 1];
    StripUnchanged(line);
  }

  /** A bullet written for a plain name reads back as that name. */
  lemma BulletOfPlain(name: string, line: string)
    requires Plain(name) && line == "- " + name
    ensures BulletMatch(line) == Some(name)
  {
    DashFirst(name, line);
    TrimStartKeeps(line);
    AfterDash(name, line);
    TrimStartKeeps(name);
    MatchAfterDash(line, name);
  }

  /** A text that does not start with whitespace is its own `lstrip`. */
  lemma TrimStartKeeps(s: string)
    requires s != [] && !IsSpace(s[0])
    ensures TrimStart(s) == s
  {
  }

  lemma AfterDash(name: string, line: string)
    requires line == "- " + name
    ensures TrimStart(line[1..]) == TrimStart(name)
  {
    assert line[1..] == [' '] + name;
    assert ([' '] + name)[1..] == name;
  }

  /** The match of a line that is its own `lstrip`, starts with a dash and has text after it. */
  lemma MatchAfterDash(line: string, text: string)
    requires line != [] && line[0] == '-' && TrimStart(line) == line
    requires TrimStart(line[1..]) == text && text != []
    ensures BulletMatch(line) == Some(text)
  {
  }

  /** What the line loop does with a stripped line. */
  predicate Skipped(line: string) {
    line == [] || line == FenceMarker
  }

  /** What the line loop makes of one line. */
  datatype Step = Skip | Keep(text: string) | Reject(line: string)

  /**
   * One turn of the loop: the line is stripped; a blank line or a fence is
   * skipped, a bullet gives its text, and any other line is refused.
   */
  function ReadLine(raw: string): (r: Step)
    ensures r.Skip? <==> Skipped(Strip(raw))
    ensures r.Keep? ==> r.text != []
    ensures r.Reject? ==> r.line == Strip(raw) && !Skipped(r.line)
  {
    var line := Strip(raw);
    if Skipped(line) then Skip
    else
      match BulletMatch(line)
      case None => Reject(line)
      case Some(text) => Keep(text)
  }

  /**
   * What the line loop of `_get_plugin_urls` computes from `output` onwards:
   * every kept text is appended, and the first refused line raises.
   */
  function ParseFrom(lines: seq<string>, read: string -> Step, output: seq<string>): Result<seq<string>> {
    if lines == [] then Ok(output)
    else
      match read(lines[0])
      case Skip => ParseFrom(lines[1..], read, output)
      case Keep(text) => ParseFrom(lines[1..], read, output + [text])
      case Reject(line) => Err(UnexpectedLine(line))
  }

  /**
   * `_get_plugin_urls` after `_get_plugins_text`: no text (or an empty one)
   * gives None, otherwise the texts of the bullets of its lines.
   */
  function PluginUrls(text: Option<string>): Result<Option<seq<string>>> {
    if text == None || text.value == [] then Ok(None)
    else
      match ParseFrom(Split(text.value, '\n'), ReadLine, [])
      case Err(e) => Err(e)
      case Ok(urls) => Ok(Some(urls))
  }

  /** The line loop of `_get_plugin_urls`, on the text `_get_plugins_text` returned. */
  method GetPluginUrls(text: Option<string>) returns (r: Result<Option<seq<string>>>)
    ensures r == PluginUrls(text)
  {
    if text == None || text.value == [] {
      return Ok(None);
    }
    var lines := Split(text.value, '\n');
    var output: seq<string> := [];
    for i := 0 to |lines|
      invariant ParseFrom(lines, ReadLine, []) == ParseFrom(lines[i..], ReadLine, output)
    {
      assert lines[i..][1..] == lines[i + 1..];
      var line := Strip(lines[i]);
      if line == [] || line == FenceMarker {
        continue;
      }
      var found := BulletMatch(line);
      if found.None? {
        return Err(UnexpectedLine(line));
      }
      output := output + [found.value];
    }
    assert lines[|lines|..] == [];
    return Ok(Some(output));
  }

  /**
   * The loop succeeds exactly when it refuses no line; otherwise it raises
   * for the first line it refuses, naming that line stripped.
   */
  lemma {:induction false} ParseFromOk(lines: seq<string>, read: string -> Step, output: seq<string>)
    ensures ParseFrom(lines, read, output).Ok? <==> forall k :: 0 <= k < |lines| ==> !read(lines[k]).Reject?
    ensures ParseFrom(lines, read, output).Err? ==>
              exists j :: 0 <= j < |lines| && read(lines[j]).Reject? &&
                (forall k :: 0 <= k < j ==> !read(lines[k]).Reject?) &&
                ParseFrom(lines, read, output).error == UnexpectedLine(read(lines[j]).line)
  {
    if lines != [] {
      var step := read(lines[0]);
      var next := if step.Keep? then output + [step.text] else output;
      ParseFromOk(lines[1..], read, next);
      if !step.Reject? {
        AcceptedShift(lines, read);
        if ParseFrom(lines, read, output).Err? {
          assert ParseFrom(lines, read, output) == ParseFrom(lines[1..], read, next);
          var j :| 0 <= j < |lines[1..]| && read(lines[1..][j]).Reject? &&
                   (forall k :: 0 <= k < j ==> !read(lines[1..][k]).Reject?) &&
                   ParseFrom(lines[1..], read, next).error == UnexpectedLine(read(lines[1..][j]).line);
          FirstRejectedShift(lines, read, j);
        }
      }
    }
  }

  lemma AcceptedShift(lines: seq<string>, read: string -> Step)
    requires lines != [] && !read(lines[0]).Reject?
    ensures (forall k :: 0 <= k < |lines| ==> !read(lines[k]).Reject?) <==>
            (forall k :: 0 <= k < |lines[1..]| ==> !read(lines[1..][k]).Reject?)
  {
    if forall k :: 0 <= k < |lines[1..]| ==> !read(lines[1..][k]).Reject? {
      forall k | 0 <= k < |lines|
        ensures !read(lines[k]).Reject?
      {
        if k > 0 {
          assert lines[k] == lines[1..][k - 1];
        }
      }
    }
  }

  lemma FirstRejectedShift(lines: seq<string>, read: string -> Step, j: nat)
    requires lines != [] && !read(lines[0]).Reject? && j < |lines| - 1
    requires forall k :: 0 <= k < j ==> !read(lines[1..][k]).Reject?
    ensures lines[j + 1] == lines[1..][j]
    ensures forall k :: 0 <= k < j + 1 ==> !read(lines[k]).Reject?
  {
    forall k | 0 <= k < j + 1
      ensures !read(lines[k]).Reject?
    {
      if k > 0 {
        assert lines[k] == lines[1..][k - 1];
      }
    }
  }

  /** `output` put in front of what a loop result gathered. */
  function Prepend(output: seq<string>, r: Result<seq<string>>): Result<seq<string>> {
    match r
    case Ok(texts) => Ok(output + texts)
    case Err(e) => Err(e)
  }

  /** The texts already gathered are carried through unchanged, in front of the rest. */
  lemma {:induction false} ParseFromOutput(lines: seq<string>, read: string -> Step, output: seq<string>)
    ensures ParseFrom(lines, read, output) == Prepend(output, ParseFrom(lines, read, []))
  {
    if lines == [] {
      assert output + [] == output;
    } else {
      match read(lines[0])
      case Skip =>
        ParseFromOutput(lines[1..], read, output);
      case Keep(text) =>
        ParseFromOutput(lines[1..], read, output + [text]);
        ParseFromOutput(lines[1..], read, [text]);
        assert [] + [text] == [text];
        PrependTwice(output, [text], ParseFrom(lines[1..], read, []));
      case Reject(_) =>
    }
  }

  lemma PrependTwice(a: seq<string>, b: seq<string>, r: Result<seq<string>>)
    ensures Prepend(a, Prepend(b, r)) == Prepend(a + b, r)
  {
    if r.Ok? {
      assert a + (b + r.value) == a + b + r.value;
    }
  }

  /** A blank line or a fence anywhere among the lines changes nothing. */
  lemma {:induction false} ParseSkips(a: seq<string>, line: string, b: seq<string>, read: string -> Step, output: seq<string>)
    requires read(line) == Skip
    ensures ParseFrom(a + [line] + b, read, output) == ParseFrom(a + b, read, output)
  {
    if a == [] {
      assert a + [line] + b == [line] + b;
      assert ([line] + b)[1..] == b;
      assert a + b == b;
    } else {
      assert (a + [line] + b)[1..] == a[1..] + [line] + b;
      assert (a + b)[1..] == a[1..] + b;
      assert (a + b)[0] == a[0];
      assert (a + [line] + b)[0] == a[0];
      match read(a[0])
      case Skip =>
        ParseSkips(a[1..], line, b, read, output);
      case Keep(text) =>
        ParseSkips(a[1..], line, b, read, output + [text]);
      case Reject(_) =>
    }
  }

  /** Lines the loop keeps one by one give their texts, in order. */
  lemma {:induction false} ParseKept(lines: seq<string>, texts: seq<string>, read: string -> Step, output: seq<string>)
    requires |lines| == |texts|
    requires forall k :: 0 <= k < |lines| ==> read(lines[k]) == Keep(texts[k])
    ensures ParseFrom(lines, read, output) == Ok(output + texts)
  {
    if lines == [] {
      assert output + texts == output;
    } else {
      assert read(lines[0]) == Keep(texts[0]);
      forall k | 0 <= k < |lines[1..]|
        ensures read(lines[1..][k]) == Keep(texts[1..][k])
      {
        assert lines[1..][k] == lines[k + 1] && texts[1..][k] == texts[k + 1];
      }
      ParseKept(lines[1..], texts[1..], read, output + [texts[0]]);
      assert output + [texts[0]] + texts[1..] == output + texts;
    }
  }

  /** Bullets written for plain names read back as the names, in order. */
  lemma ParseBullets(names: seq<string>, output: seq<string>)
    requires AllPlain(names)
    ensures ParseFrom(Prefixed("- ", names), ReadLine, output) == Ok(output + names)
  {
    var bullets := Prefixed("- ", names);
    forall k | 0 <= k < |bullets|
      ensures ReadLine(bullets[k]) == Keep(names[k])
    {
      BulletRead(names[k], bullets[k]);
    }
    ParseKept(bullets, names, ReadLine, output);
  }

  /** The loop keeps the name of a bullet written for a plain name. */
  lemma BulletRead(name: string, line: string)
    requires Plain(name) && line == "- " + name
    ensures ReadLine(line) == Keep(name)
  {
    BulletStripped(name, line);
    BulletOfPlain(name, line);
    DashFirst(name, line);
    KeptLine(line, name);
  }

  lemma DashFirst(name: string, line: string)
    requires line == "- " + name
    ensures line != [] && line[0] == '-'
  {
  }

  /** A stripped line that starts with a dash and matches is kept. */
  lemma KeptLine(line: string, text: string)
    requires Strip(line) == line && line != [] && line[0] == '-' && BulletMatch(line) == Some(text)
    ensures ReadLine(line) == Keep(text)
  {
    assert line != FenceMarker by {
      assert FenceMarker[0] == '`';
    }
  }

  lemma AllPlainTail(names: seq<string>)
    requires names != [] && AllPlain(names)
    ensures AllPlain(names[1..])
  {
    forall k | 0 <= k < |names[1..]|
      ensures Plain(names[1..][k])
    {
      assert names[1..][k] == names[k + 1];
    }
  }

  /** Sorting keeps every name plain. */
  lemma SortPlain(names: seq<string>)
    requires AllPlain(names)
    ensures AllPlain(Sort(names))
  {
    var s := Sort(names);
    forall k | 0 <= k < |s|
      ensures Plain(s[k])
    {
      assert s[k] in multiset(names);
      var j :| 0 <= j < |names| && names[j] == s[k];
    }
  }

  /** Every bullet of plain names is one line. */
  lemma PrefixedOneLine(names: seq<string>)
    requires AllPlain(names)
    ensures forall k :: 0 <= k < |Prefixed("- ", names)| ==> '\n' !in Prefixed("- ", names)[k]
  {
    var bullets := Prefixed("- ", names);
    forall k | 0 <= k < |bullets|
      ensures '\n' !in bullets[k]
    {
      assert bullets[k] == "- " + names[k];
    }
  }

  /**
   * The round trip: the bullet block written for plain names, stripped and
   * read back by the line loop, yields the names sorted; no names give None.
   */
  lemma BulletRoundTrip(names: seq<string>)
    requires AllPlain(names)
    ensures Strip(BulletBlock(names)) == BulletBlock(names)
    ensures PluginUrls(Some(BulletBlock(names))) == if names == [] then Ok(None) else Ok(Some(Sort(names)))
  {
    if names == [] {
      assert BulletBlock(names) == [];
    } else {
      BlockStripped(names);
      BulletsReadBack(names);
    }
  }

  lemma BulletsReadBack(names: seq<string>)
    requires AllPlain(names) && names != []
    ensures PluginUrls(Some(BulletBlock(names))) == Ok(Some(Sort(names)))
  {
    var sorted := Sort(names);
    SortPlain(names);
    BlockLines(names);
    ParseBulletsFresh(sorted);
    ReadBack(BulletBlock(names), Prefixed("- ", sorted), sorted);
  }

  lemma ParseBulletsFresh(names: seq<string>)
    requires AllPlain(names)
    ensures ParseFrom(Prefixed("- ", names), ReadLine, []) == Ok(names)
  {
    ParseBullets(names, []);
    assert [] + names == names;
  }

  /** A non-empty text whose lines the loop reads without refusal gives what the loop gathered. */
  lemma ReadBack(text: string, lines: seq<string>, urls: seq<string>)
    requires text != [] && Split(text, '\n') == lines && ParseFrom(lines, ReadLine, []) == Ok(urls)
    ensures PluginUrls(Some(text)) == Ok(Some(urls))
  {
  }

  /** The block is one bullet per line, the names sorted. */
  lemma BlockLines(names: seq<string>)
    requires AllPlain(names) && names != []
    ensures BulletBlock(names) != []
    ensures Split(BulletBlock(names), '\n') == Prefixed("- ", Sort(names))
  {
    SortPrefixed("- ", names);
    SortPlain(names);
    BlockEnds(Prefixed("- ", Sort(names)), Sort(names));
    PrefixedOneLine(Sort(names));
    SplitJoin(Prefixed("- ", Sort(names)), '\n');
  }

  /** The block has no whitespace at either end, so stripping it changes nothing. */
  lemma BlockStripped(names: seq<string>)
    requires AllPlain(names) && names != []
    ensures Strip(BulletBlock(names)) == BulletBlock(names)
  {
    var sorted := Sort(names);
    SortPrefixed("- ", names);
    SortPlain(names);
    BlockEnds(Prefixed("- ", sorted), sorted);
    StripUnchanged(Join(Prefixed("- ", sorted), "\n"));
  }

  /** The block starts with a dash and ends with the last name's last character. */
  lemma BlockEnds(bullets: seq<string>, sorted: seq<string>)
    requires sorted != [] && AllPlain(sorted) && bullets == Prefixed("- ", sorted)
    ensures Join(bullets, "\n") != []
    ensures Join(bullets, "\n")[0] == '-'
    ensures !IsSpace(Join(bullets, "\n")[|Join(bullets, "\n")| - 1])
  {
    var last := sorted[|sorted| - 1];
    assert bullets[0] == "- " + sorted[0];
    assert bullets[|bullets| - 1] == "- " + last;
    JoinFirst(bullets, "\n");
    JoinLast(bullets, "\n");
    assert ("- " + last)[|"- " + last| - 1] == last[|last| - 1];
  }

  lemma {:induction false} JoinFirst(parts: seq<string>, sep: string)
    requires parts != [] && parts[0] != []
    ensures Join(parts, sep) != [] && Join(parts, sep)[0] == parts[0][0]
  {
  }

  lemma {:induction false} JoinLast(parts: seq<string>, sep: string)
    requires parts != [] && parts[|parts| - 1] != []
    ensures Join(parts, sep) != []
    ensures Join(parts, sep)[|Join(parts, sep)| - 1] == parts[|parts| - 1][|parts[|parts| - 1]| - 1]
  {
    if |parts| > 1 {
      JoinLast(parts[1..], sep);
    }
  }
}
