/**
 * Markdown links, the shape every labelled cell of the table takes:
 * the repository label, the model tags and the license link.
 */
module Markdown {
  import opened Wrappers
  import opened Strings

  /** `f"[{text}]({url})"`. */
  function Link(text: string, url: string): (r: string)
    ensures |r| == |text| + |url| + 4
    ensures r[0] == '[' && r[|r| - 1] == ')'
  {
    "[" + text + "](" + url + ")"
  }

  /**
   * Reads a link back: the text runs up to the first `]`, which must be
   * followed by `(`, and the url runs up to the final `)`.
   */
  function ParseLink(s: string): (r: Option<(string, string)>)
    ensures r.Some? ==> ']' !in r.value.0
  {
    if |s| < 4 || s[0] != '[' || s[|s| - 1] != ')' then None
    else
      var k := 1 + IndexOf(s[1..], ']');
      if k + 2 > |s| - 1 || s[k..k + 2] != "](" then None
      else Some((s[1..k], s[k + 2..|s| - 1]))
  }

  /** A link whose text has no `]` reads back as the text and url it was made of. */
  lemma LinkRoundTrip(text: string, url: string)
    requires ']' !in text
    ensures ParseLink(Link(text, url)) == Some((text, url))
  {
    var s := Link(text, url);
    assert s[1..] == text + "](" + url + ")";
    IndexOfConcat(text, "](" + url + ")", ']');
    assert s[|text| + 1..|text| + 3] == "](";
    assert s[1..|text| + 1] == text;
    assert s[|text| + 3..|s| - 1] == url;
  }

  /** A character that is not markdown link syntax occurs in a link only if it occurs in its text or url. */
  lemma LinkExcludes(text: string, url: string, c: char)
    requires c != '[' && c != ']' && c != '(' && c != ')'
    requires c !in text && c !in url
    ensures c !in Link(text, url)
  {
  }

  /** Two links made from `]`-free texts are equal only if their texts and urls are. */
  lemma LinkInjective(t1: string, u1: string, t2: string, u2: string)
    requires ']' !in t1 && ']' !in t2
    requires Link(t1, u1) == Link(t2, u2)
    ensures t1 == t2 && u1 == u2
  {
    LinkRoundTrip(t1, u1);
    LinkRoundTrip(t2, u2);
  }
}
