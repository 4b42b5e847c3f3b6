/**
 * Classifying plugin URLs and documentation files (`_is_github`,
 * `_is_readme`, `_GitHubRepositoryRequest.from_url`).
 */
module Urls {
  import opened Wrappers
  import opened Strings

  /**
   * An anchored regular expression of the shape `^head(c)?tail`, which is
   * the shape of each of `_GITHUB_PATTERNS`.
   */
  datatype AnchoredPattern = AnchoredPattern(head: string, optional: Option<char>, tail: string)

  /** `re.match`: the pattern matches at the start of `url`. */
  predicate PatternMatches(p: AnchoredPattern, url: string) {
    StartsWith(url, p.head) &&
    (StartsWith(url[|p.head|..], p.tail) ||
     (p.optional.Some? && StartsWith(url[|p.head|..], [p.optional.value] + p.tail)))
  }

  /** `_GITHUB_PATTERNS`: `^https?://github\.com/`, `^git@github\.com:`, `^git://github\.com/`. */
  const GitHubPatterns: seq<AnchoredPattern> := [
    AnchoredPattern("http", Some('s'), "://github.com/"),
    AnchoredPattern("git@github.com:", None, ""),
    AnchoredPattern("git://github.com/", None, "")
  ]

  /** `_is_github`: some GitHub pattern matches the start of `url`. */
  predicate IsGitHub(url: string) {
    exists p :: p in GitHubPatterns && PatternMatches(p, url)
  }

  lemma StartsWithConcat(url: string, a: string, b: string)
    requires |a| <= |url|
    ensures StartsWith(url, a + b) <==> StartsWith(url, a) && StartsWith(url[|a|..], b)
  {
    if StartsWith(url, a) && StartsWith(url[|a|..], b) {
      assert url[..|a + b|] == url[..|a|] + url[|a|..][..|b|];
    }
    if StartsWith(url, a + b) {
      assert url[..|a|] == (a + b)[..|a|];
      assert url[|a|..][..|b|] == (a + b)[|a|..];
    }
  }

  /** `^head(c)?tail` matches exactly the prefixes `head + tail` and `head + c + tail`. */
  lemma PatternPrefixes(p: AnchoredPattern, url: string)
    requires |p.head| <= |url|
    ensures PatternMatches(p, url) <==>
            StartsWith(url, p.head + p.tail) ||
            (p.optional.Some? && StartsWith(url, p.head + ([p.optional.value] + p.tail)))
  {
    StartsWithConcat(url, p.head, p.tail);
    if p.optional.Some? {
      StartsWithConcat(url, p.head, [p.optional.value] + p.tail);
    }
  }

  /** `^https?://github\.com/` matches exactly the http and https prefixes. */
  lemma HttpPatternPrefixes(url: string)
    ensures PatternMatches(AnchoredPattern("http", Some('s'), "://github.com/"), url) <==>
            StartsWith(url, "http://github.com/") || StartsWith(url, "https://github.com/")
  {
    var p := AnchoredPattern("http", Some('s'), "://github.com/");
    HttpLiterals(p.head, p.tail, "http://github.com/", "https://github.com/");
    if |url| >= 4 {
      PatternPrefixes(p, url);
    }
  }

  lemma HttpLiterals(head: string, tail: string, plain: string, secure: string)
    requires head == "http" && tail == "://github.com/"
    requires plain == "http://github.com/" && secure == "https://github.com/"
    ensures head + tail == plain && head + (['s'] + tail) == secure
    ensures |head| == 4 && |plain| == 18 && |secure| == 19
  {
  }

  /**
   * `_is_github(url)` holds exactly when `url` starts with one of
   * "http://github.com/", "https://github.com/", "git@github.com:" or
   * "git://github.com/".
   */
  lemma IsGitHubPrefixes(url: string)
    ensures IsGitHub(url) <==>
            StartsWith(url, "http://github.com/") || StartsWith(url, "https://github.com/") ||
            StartsWith(url, "git@github.com:") || StartsWith(url, "git://github.com/")
  {
    HttpPatternPrefixes(url);
    assert [] + "" == "";
    assert PatternMatches(GitHubPatterns[1], url) <==> StartsWith(url, "git@github.com:");
    assert PatternMatches(GitHubPatterns[2], url) <==> StartsWith(url, "git://github.com/");
    assert IsGitHub(url) <==>
           PatternMatches(GitHubPatterns[0], url) || PatternMatches(GitHubPatterns[1], url) ||
           PatternMatches(GitHubPatterns[2], url);
  }

  /** `os.path.basename`: everything after the last `/`. */
  function Basename(path: string): (r: string)
    ensures '/' !in r
    ensures |r| <= |path| && r == path[|path| - |r|..]
  {
    path[LastIndexOf(path, '/') + 1..]
  }

  /**
   * The root half of `os.path.splitext` on a basename: the name up to its
   * last `.`, unless only dots precede that `.` (then there is no extension).
   */
  function SplitExtRoot(name: string): (r: string)
    ensures |r| <= |name| && r == name[..|r|]
  {
    var dot := LastIndexOf(name, '.');
    if dot >= 0 && exists i :: 0 <= i < dot && name[i] != '.' then name[..dot] else name
  }

  /** `_is_readme`: the basename without its extension is "readme", in any case. */
  predicate IsReadme(path: string) {
    Lower(SplitExtRoot(Basename(path))) == "readme"
  }

  /** Lower-casing keeps every `.` where it is and makes no new one. */
  lemma LowerKeepsDots(s: string, i: int)
    requires 0 <= i < |s|
    ensures Lower(s)[i] == '.' <==> s[i] == '.'
  {
  }

  /** Lower-casing and dropping the extension can be done in either order. */
  lemma LowerSplitExtRoot(name: string)
    ensures Lower(SplitExtRoot(name)) == SplitExtRoot(Lower(name))
  {
    var b := Lower(name);
    var dot := LastIndexOf(name, '.');
    LowerLastDot(name);
    LowerKeepsStem(name, dot);
    var root, lowerRoot := SplitExtRoot(name), SplitExtRoot(b);
    if dot >= 0 && exists i :: 0 <= i < dot && name[i] != '.' {
      assert root == name[..dot] && lowerRoot == b[..dot];
      LowerPrefix(name, dot);
    } else {
      assert root == name && lowerRoot == b;
    }
  }

  /** Lower-casing keeps whether a non-dot character precedes position `dot`. */
  lemma LowerKeepsStem(name: string, dot: int)
    requires dot < |name|
    ensures (exists i :: 0 <= i < dot && name[i] != '.') <==>
            (exists i :: 0 <= i < dot && Lower(name)[i] != '.')
  {
    LowerSameDots(name);
    if exists i :: 0 <= i < dot && name[i] != '.' {
      var i :| 0 <= i < dot && name[i] != '.';
      assert Lower(name)[i] != '.';
    }
    if exists i :: 0 <= i < dot && Lower(name)[i] != '.' {
      var i :| 0 <= i < dot && Lower(name)[i] != '.';
      assert name[i] != '.';
    }
  }

  lemma LowerSameDots(name: string)
    ensures forall i :: 0 <= i < |name| ==> (Lower(name)[i] == '.' <==> name[i] == '.')
  {
    forall i | 0 <= i < |name|
      ensures Lower(name)[i] == '.' <==> name[i] == '.'
    {
      LowerKeepsDots(name, i);
    }
  }

  lemma LowerLastDot(name: string)
    ensures LastIndexOf(Lower(name), '.') == LastIndexOf(name, '.')
  {
    var b := Lower(name);
    var dot := LastIndexOf(name, '.');
    var d := LastIndexOf(b, '.');
    LowerSameDots(name);
    if d >= 0 { assert name[d] == '.'; }
    if dot >= 0 { assert b[dot] == '.'; }
  }

  lemma LowerPrefix(name: string, k: nat)
    requires k <= |name|
    ensures Lower(name[..k]) == Lower(name)[..k]
  {
  }

  /** Which basenames have "readme" as the part before their extension. */
  lemma RootIsReadme(b: string)
    ensures SplitExtRoot(b) == "readme" <==>
            b == "readme" || (|b| > 6 && b[..7] == "readme." && '.' !in b[7..])
  {
    var dot := LastIndexOf(b, '.');
    if b == "readme" {
      assert forall i :: 0 <= i < |b| ==> b[i] != '.';
      assert dot == -1;
    } else if |b| > 6 && b[..7] == "readme." && '.' !in b[7..] {
      assert b[6] == '.' && b[0] != '.';
      forall i | 7 <= i < |b| ensures b[i] != '.' {
        assert b[7..][i - 7] == b[i];
      }
      assert dot == 6;
      assert b[..6] == "readme";
    }
    if SplitExtRoot(b) == "readme" && SplitExtRoot(b) != b {
      assert dot == 6 && b[6] == '.';
      assert b[..7] == "readme.";
      forall i | 0 <= i < |b[7..]| ensures b[7..][i] != '.' {
        assert b[7..][i] == b[i + 7];
      }
    }
  }

  /**
   * A path names a README exactly when its lower-cased basename is "readme",
   * or "readme" followed by one extension (a dot and no further dot).
   */
  lemma IsReadmeCharacterized(path: string)
    ensures IsReadme(path) <==>
            var b := Lower(Basename(path));
            b == "readme" || (|b| > 6 && b[..7] == "readme." && '.' !in b[7..])
  {
    LowerSplitExtRoot(Basename(path));
    RootIsReadme(Lower(Basename(path)));
  }

  lemma BasenameNoSlash(path: string)
    requires '/' !in path
    ensures Basename(path) == path
  {
  }

  /** "README.md", in any case, is documentation. */
  lemma IsReadmeExample()
    ensures IsReadme("README.md")
  {
    NoSlash("README.md");
    BasenameNoSlash("README.md");
    LowerReadme();
    IsReadmeCharacterized("README.md");
    OneExtension("readme.md", 7);
  }

  /** A name with two extensions is not documentation. */
  lemma IsNotReadmeExample()
    ensures !IsReadme("readme.md.txt")
  {
    var path := "readme.md.txt";
    LowerCaseBasename(path);
    IsReadmeCharacterized(path);
    SecondDot(path);
  }

  lemma LowerCaseBasename(path: string)
    requires path == "readme.md.txt"
    ensures Lower(Basename(path)) == path && path != "readme"
  {
    NoSlash(path);
    BasenameNoSlash(path);
    LowerOfLowerCase(path);
  }

  lemma NoSlash(s: string)
    requires forall i :: 0 <= i < |s| ==> s[i] != '/'
    ensures '/' !in s
  {
  }

  lemma LowerReadme()
    ensures Lower("README.md") == "readme.md"
  {
  }

  lemma OneExtension(b: string, n: nat)
    requires b == "readme.md" && n == 7
    ensures b[..n] == "readme." && '.' !in b[n..]
  {
    assert b[n..] == "md";
  }

  lemma SecondDot(b: string)
    requires b == "readme.md.txt"
    ensures '.' in b[7..]
  {
    assert b[7..][2] == '.';
  }

  predicate IsSchemeChar(c: char) {
    ('a' <= c <= 'z') || ('A' <= c <= 'Z') || ('0' <= c <= '9') || c == '+' || c == '-' || c == '.'
  }

  /** The end of the network location: the first `/`, `?` or `#`, or the end. */
  function NetlocEnd(s: string): (r: nat)
    ensures r <= |s|
    ensures '?' !in s && '#' !in s ==> r == IndexOf(s, '/')
  {
    var a, b, c := IndexOf(s, '/'), IndexOf(s, '?'), IndexOf(s, '#');
    if a <= b && a <= c then a else if b <= c then b else c
  }

  /** `urlsplit`'s scheme test: a letter, then scheme characters, up to the first `:`. */
  predicate HasScheme(url: string) {
    var i := IndexOf(url, ':');
    0 < i < |url| && (('a' <= url[0] <= 'z') || ('A' <= url[0] <= 'Z')) &&
    forall k :: 0 <= k < i ==> IsSchemeChar(url[k])
  }

  /** What follows the `scheme:` prefix, if there is one. */
  function AfterScheme(url: string): string {
    if HasScheme(url) then url[IndexOf(url, ':') + 1..] else url
  }

  /** What follows a `//netloc` part, if there is one. */
  function AfterNetloc(rest: string): string {
    if StartsWith(rest, "//") then rest[2..][NetlocEnd(rest[2..])..] else rest
  }

  /** The text before the first `c` (all of it when there is none). */
  function CutAt(s: string, c: char): (r: string)
    ensures c !in r
    ensures c !in s ==> r == s
  {
    s[..IndexOf(s, c)]
  }

  /** `urlsplit` first strips the C0 control characters and spaces that lead the URL. */
  function StripLeadingControls(s: string): (r: string)
    ensures r == [] || r[0] > ' '
    ensures s != [] && s[0] > ' ' ==> r == s
  {
    if s != [] && s[0] <= ' ' then StripLeadingControls(s[1..]) else s
  }

  /** The characters `urlsplit` deletes wherever they occur. */
  predicate Unsafe(c: char) {
    c == '\t' || c == '\r' || c == '\n'
  }

  /** `s` with every tab, carriage return and line feed deleted. */
  function RemoveUnsafe(s: string): (r: string)
    ensures forall c :: c in r ==> c in s && !Unsafe(c)
    ensures (forall c :: c in s ==> !Unsafe(c)) ==> r == s
    ensures s != [] && !Unsafe(s[0]) ==> r != [] && r[0] == s[0]
  {
    if s == [] then []
    else
      var rest := RemoveUnsafe(s[1..]);
      assert forall c :: c in s ==> c == s[0] || c in s[1..];
      if Unsafe(s[0]) then rest else [s[0]] + rest
  }

  /** The URL `urlsplit` goes on to parse. */
  function Cleaned(url: string): string {
    RemoveUnsafe(StripLeadingControls(url))
  }

  /** The network location after `//`, up to the first `/`, `?` or `#`; empty without `//`. */
  function Netloc(rest: string): string {
    if StartsWith(rest, "//") then rest[2..][..NetlocEnd(rest[2..])] else ""
  }

  /** A network location with a `[` and no `]`, or the reverse, which `urlsplit` refuses. */
  predicate UnbalancedBrackets(netloc: string) {
    ('[' in netloc) != (']' in netloc)
  }

  /**
   * The path component `urllib.parse.urlparse` gives: the URL is cleaned, an
   * optional `scheme:` prefix and `//netloc` are removed, and the path stops
   * at the first `#` and then at the first `?`. A network location with
   * unbalanced brackets raises ValueError.
   */
  function UrlPath(url: string): Result<string> {
    var rest := AfterScheme(Cleaned(url));
    if UnbalancedBrackets(Netloc(rest)) then Err(InvalidIpv6(url))
    else Ok(CutAt(CutAt(AfterNetloc(rest), '#'), '?'))
  }

  /** Cleaning a cleaned URL changes nothing. */
  lemma CleanedIdempotent(url: string)
    ensures Cleaned(Cleaned(url)) == Cleaned(url)
    ensures forall c :: c in Cleaned(url) ==> !Unsafe(c)
  {
    var stripped := StripLeadingControls(url);
    var clean := RemoveUnsafe(stripped);
    if stripped != [] && !Unsafe(stripped[0]) {
      assert clean[0] == stripped[0];
    }
    if clean != [] {
      assert clean[0] in clean;
    }
  }

  /**
   * Leading control characters and spaces and embedded tabs, carriage
   * returns and line feeds do not change the request a URL yields.
   */
  lemma FromUrlIgnoresUnsafe(url: string)
    ensures FromUrl(Cleaned(url)).Ok? <==> FromUrl(url).Ok?
    ensures FromUrl(url).Ok? ==> FromUrl(Cleaned(url)) == FromUrl(url)
  {
    CleanedIdempotent(url);
  }

  /** A URL that does not start with a control character or space and holds no unsafe character is left as it is. */
  lemma CleanedKeeps(url: string)
    requires url != [] && url[0] > ' '
    requires forall c :: c in url ==> !Unsafe(c)
    ensures Cleaned(url) == url
  {
  }

  /** `_GitHubRepositoryRequest`: the owner and name of a repository to query. */
  datatype Request = Request(owner: string, name: string)

  /**
   * `from_url` on the path: the last two `/`-separated segments are the
   * owner and the name; a path with no `/` has no second-to-last segment and
   * raises IndexError.
   */
  function FromPath(path: string): (r: Result<Request>)
    ensures r.Ok? <==> '/' in path
    ensures r.Ok? ==> '/' !in r.value.owner && '/' !in r.value.name
    ensures r.Err? ==> r.error == PathTooShort(path)
  {
    var parts := Split(path, '/');
    SplitSingle(path, '/');
    if |parts| < 2 then Err(PathTooShort(path))
    else Ok(Request(parts[|parts| - 2], parts[|parts| - 1]))
  }

  /** `_GitHubRepositoryRequest.from_url`. */
  function FromUrl(url: string): Result<Request> {
    match UrlPath(url)
    case Err(e) => Err(e)
    case Ok(path) => FromPath(path)
  }

  /** A path ending in `/owner/name` yields that owner and name, whatever precedes them. */
  lemma FromPathRoundTrip(prefix: string, owner: string, name: string)
    requires '/' !in owner && '/' !in name
    ensures FromPath(prefix + "/" + owner + "/" + name) == Ok(Request(owner, name))
  {
    var path := prefix + "/" + owner + "/" + name;
    SplitConcat(prefix + "/" + owner, name, '/');
    SplitConcat(prefix, owner, '/');
    assert path == (prefix + "/" + owner) + ['/'] + name;
    assert prefix + "/" + owner == prefix + ['/'] + owner;
    SplitSingle(owner, '/');
    SplitSingle(name, '/');
  }

  lemma IndexOfAbsent(s: string, c: char)
    requires c !in s
    ensures IndexOf(s, c) == |s|
  {
  }

  /** No `/`, `?` or `#`, and nothing `urlsplit` deletes. */
  predicate NoDelimiter(s: string) {
    '/' !in s && '?' !in s && '#' !in s && '\t' !in s && '\r' !in s && '\n' !in s
  }

  /**
   * An `http`, `https` or `git` GitHub URL `scheme://github.com/owner/name`
   * yields that owner and name.
   */
  lemma FromUrlWithScheme(scheme: string, owner: string, name: string)
    requires scheme != [] && forall i :: 0 <= i < |scheme| ==> 'a' <= scheme[i] <= 'z'
    requires NoDelimiter(owner) && NoDelimiter(name)
    ensures FromUrl(scheme + "://github.com/" + owner + "/" + name) == Ok(Request(owner, name))
  {
    var path := "/" + owner + "/" + name;
    var url := scheme + "://github.com/" + owner + "/" + name;
    GitHubHostShape(scheme, "github.com", path, url);
    GitHubHostPlain("github.com");
    SlashPathPlain(owner, name, path);
    SchemeUrlPath(scheme, "github.com", path);
    FromUrlOfPath(url, path);
    SlashPath(owner, name, path);
  }

  /** The request of a URL is read off its path. */
  lemma FromUrlOfPath(url: string, path: string)
    requires UrlPath(url) == Ok(path)
    ensures FromUrl(url) == FromPath(path)
  {
  }

  lemma GitHubHostShape(scheme: string, host: string, path: string, url: string)
    requires host == "github.com" && url == scheme + "://github.com" + path
    ensures url == scheme + "://" + host + path
  {
  }

  lemma GitHubHostPlain(host: string)
    requires host == "github.com"
    ensures NoDelimiter(host) && !UnbalancedBrackets(host)
  {
  }

  lemma SlashPathPlain(owner: string, name: string, path: string)
    requires NoDelimiter(owner) && NoDelimiter(name) && path == "/" + owner + "/" + name
    ensures path[0] == '/' && '?' !in path && '#' !in path && forall c :: c in path ==> !Unsafe(c)
  {
  }

  /**
   * A URL `scheme://netloc/...` whose network location holds a `[` without
   * a `]`, or the reverse, is refused.
   */
  lemma FromUrlUnbalanced(scheme: string, netloc: string, path: string)
    requires scheme != [] && forall i :: 0 <= i < |scheme| ==> 'a' <= scheme[i] <= 'z'
    requires NoDelimiter(netloc) && UnbalancedBrackets(netloc)
    requires path == [] || path[0] == '/'
    requires forall c :: c in path ==> !Unsafe(c)
    ensures FromUrl(scheme + "://" + netloc + path) == Err(InvalidIpv6(scheme + "://" + netloc + path))
  {
    SchemeUrlSplit(scheme, netloc, path);
  }

  lemma SlashPath(owner: string, name: string, path: string)
    requires '/' !in owner && '/' !in name && path == "/" + owner + "/" + name
    ensures FromPath(path) == Ok(Request(owner, name))
  {
    FromPathRoundTrip("", owner, name);
    assert "" + "/" + owner + "/" + name == path;
  }

  /** `scheme://netloc/path` splits into its scheme, network location and path. */
  lemma SchemeUrlSplit(scheme: string, netloc: string, path: string)
    requires scheme != [] && forall i :: 0 <= i < |scheme| ==> 'a' <= scheme[i] <= 'z'
    requires NoDelimiter(netloc)
    requires path == [] || path[0] == '/'
    requires forall c :: c in path ==> !Unsafe(c)
    ensures Cleaned(scheme + "://" + netloc + path) == scheme + "://" + netloc + path
    ensures AfterScheme(scheme + "://" + netloc + path) == "//" + netloc + path
    ensures Netloc("//" + netloc + path) == netloc
    ensures AfterNetloc("//" + netloc + path) == path
  {
    var tail := "//" + netloc + path;
    var url := scheme + "://" + netloc + path;
    assert url == scheme + (":" + tail);
    forall c | c in url
      ensures !Unsafe(c)
    {
      if c in scheme {
        var i :| 0 <= i < |scheme| && scheme[i] == c;
      }
    }
    assert url[0] == scheme[0];
    CleanedKeeps(url);
    SchemeSplit(scheme, tail);
    NetlocSplit(netloc, path);
  }

  /** `scheme://netloc/path` has the path `/path` when it holds no `?` or `#`. */
  lemma SchemeUrlPath(scheme: string, netloc: string, path: string)
    requires scheme != [] && forall i :: 0 <= i < |scheme| ==> 'a' <= scheme[i] <= 'z'
    requires NoDelimiter(netloc) && !UnbalancedBrackets(netloc)
    requires path == [] || path[0] == '/'
    requires '?' !in path && '#' !in path && forall c :: c in path ==> !Unsafe(c)
    ensures UrlPath(scheme + "://" + netloc + path) == Ok(path)
  {
    SchemeUrlSplit(scheme, netloc, path);
  }

  lemma SchemeSplit(scheme: string, tail: string)
    requires scheme != [] && forall i :: 0 <= i < |scheme| ==> 'a' <= scheme[i] <= 'z'
    ensures HasScheme(scheme + (":" + tail))
    ensures AfterScheme(scheme + (":" + tail)) == tail
  {
    var url := scheme + (":" + tail);
    assert ':' !in scheme;
    IndexOfConcat(scheme, ":" + tail, ':');
    assert url[|scheme| + 1..] == tail;
  }

  lemma NetlocSplit(netloc: string, path: string)
    requires '/' !in netloc && '?' !in netloc && '#' !in netloc
    requires path == [] || path[0] == '/'
    ensures Netloc("//" + netloc + path) == netloc
    ensures AfterNetloc("//" + netloc + path) == path
  {
    var tail := "//" + netloc + path;
    assert StartsWith(tail, "//");
    assert tail[2..] == netloc + path;
    IndexOfConcat(netloc, path, '/');
    IndexOfConcat(netloc, path, '?');
    IndexOfConcat(netloc, path, '#');
    assert NetlocEnd(netloc + path) == |netloc|;
    assert (netloc + path)[..|netloc|] == netloc;
    assert (netloc + path)[|netloc|..] == path;
  }

  /**
   * An scp-style `git@github.com:owner/name` URL has no scheme for
   * `urlparse`, so the whole URL is the path and the host stays glued to
   * the owner.
   */
  lemma FromUrlScpStyle(owner: string, name: string)
    requires NoDelimiter(owner) && NoDelimiter(name)
    ensures FromUrl("git@github.com:" + owner + "/" + name)
            == Ok(Request("git@github.com:" + owner, name))
  {
    var head := "git@github.com:" + owner;
    var url := head + ['/'] + name;
    assert "git@github.com:" + owner + "/" + name == url;
    assert "git@github.com:" + (owner + "/" + name) == url;
    ScpHasNoScheme(owner + "/" + name);
    assert NoDelimiter("git@github.com:");
    PlainPath(url);
    SplitPair(head, name);
  }

  /** A URL with no scheme, no leading `//`, no `?`, no `#` and nothing to clean is all path. */
  lemma PlainPath(url: string)
    requires !HasScheme(url) && url != [] && url[0] != '/' && url[0] > ' '
    requires '?' !in url && '#' !in url && forall c :: c in url ==> !Unsafe(c)
    ensures UrlPath(url) == Ok(url)
  {
    CleanedKeeps(url);
  }

  lemma SplitPair(head: string, name: string)
    requires '/' !in head && '/' !in name
    ensures Split(head + ['/'] + name, '/') == [head, name]
  {
    SplitConcat(head, name, '/');
    SplitSingle(head, '/');
    SplitSingle(name, '/');
  }

  lemma ScpHasNoScheme(rest: string)
    ensures !HasScheme("git@github.com:" + rest)
  {
    var user := "git@github.com";
    var url := user + (":" + rest);
    assert "git@github.com:" + rest == url;
    assert ':' !in user;
    IndexOfConcat(user, ":" + rest, ':');
    assert url[3] == '@' && !IsSchemeChar(url[3]);
  }
}
