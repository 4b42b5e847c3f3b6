/**
 * The AI models a plugin may support, and how they are found in a plugin's
 * documentation (`_Model`, `_MODELS`, `_get_models`).
 */
module AiModels {
  import opened Strings
  import Markdown
  import Wrappers

  /** The three forms `_Model.search_terms` takes: None, one string, or a sequence. */
  datatype SearchTerms = NoTerms | Term(term: string) | Terms(terms: seq<string>)

  /** `_Model`: what to search for, the model's name, and where to learn about it. */
  datatype Model = Model(searchTerms: SearchTerms, name: string, url: string)

  /**
   * `_Model.get_search_terms`: an absent or empty setting falls back to the
   * model's name; a single string becomes a one-element list.
   */
  function SearchTermsOf(m: Model): (r: seq<string>)
    ensures r != []
    ensures m.searchTerms == NoTerms || m.searchTerms == Term("") || m.searchTerms == Terms([])
            ==> r == [m.name]
    ensures m.searchTerms.Term? && m.searchTerms.term != "" ==> r == [m.searchTerms.term]
    ensures m.searchTerms.Terms? && m.searchTerms.terms != [] ==> r == m.searchTerms.terms
  {
    match m.searchTerms
    case NoTerms => [m.name]
    case Term(t) => if t == "" then [m.name] else [t]
    case Terms(ts) => if ts == [] then [m.name] else ts
  }

  /** `_Model.serialize_to_markdown_tag`: `[#Name](url)`. */
  function MarkdownTag(m: Model): (r: string)
    ensures ']' !in m.name ==> Markdown.ParseLink(r) == Wrappers.Some(("#" + m.name, m.url))
  {
    var r := Markdown.Link("#" + m.name, m.url);
    if ']' !in m.name then
      Markdown.LinkRoundTrip("#" + m.name, m.url);
      r
    else r
  }

  const Claude := Model(Term("claude"), "Claude", "https://claude.ai")
  const DeepSeek := Model(Term("deepseek"), "DeepSeek", "https://chat.deepseek.com")
  const Ollama := Model(Term("ollama"), "Ollama", "https://ollama.com")
  const OpenAI := Model(Term("openai"), "OpenAI", "https://openai.com")
  const TabNine := Model(Term("tabnine"), "TabNine", "https://www.tabnine.com")
  const Windsurf := Model(Terms(["codeium", "windsurf"]), "Windsurf", "https://windsurf.com")
  const Qodo := Model(Terms(["codium", "qodo"]), "Qodo", "https://www.qodo.ai")

  /** `_MODELS`: every model the generator knows of. */
  const KnownModels: seq<Model> := [Claude, DeepSeek, Ollama, OpenAI, TabNine, Windsurf, Qodo]

  /**
   * The test inside `_get_models`: some non-empty search term of `m` occurs
   * in the lower-cased page (an empty term is falsy and never counts).
   */
  predicate MentionedIn(lowered: string, m: Model) {
    exists t :: t in SearchTermsOf(m) && t != "" && Contains(lowered, t)
  }

  /** The known models one lower-cased page mentions. */
  function Mentions(lowered: string): (r: set<Model>)
    ensures forall m :: m in r <==> m in KnownModels && MentionedIn(lowered, m)
  {
    set m | m in KnownModels && MentionedIn(lowered, m)
  }

  /** What `_get_models` gathers from `documentation`, page by page. */
  function ModelsIn(documentation: seq<string>): set<Model> {
    if documentation == [] then {}
    else
      var last := |documentation| - 1;
      ModelsIn(documentation[..last]) + Mentions(Lower(documentation[last]))
  }

  /**
   * `_get_models`: for each page, lower-case it and add every known model one
   * of whose search terms it contains.
   */
  method GetModels(documentation: seq<string>) returns (output: set<Model>)
    ensures output == ModelsIn(documentation)
  {
    output := {};
    for i := 0 to |documentation|
      invariant output == ModelsIn(documentation[..i])
    {
      var lowered := Lower(documentation[i]);
      output := output + set m | m in KnownModels && MentionedIn(lowered, m);
      assert documentation[..i + 1][..i] == documentation[..i];
    }
    assert documentation[..|documentation|] == documentation;
  }

  /**
   * The models found are exactly the known models that some page, once
   * lower-cased, mentions.
   */
  lemma {:induction false} ModelsInMeaning(documentation: seq<string>, m: Model)
    ensures m in ModelsIn(documentation)
            <==> m in KnownModels && exists page :: page in documentation && MentionedIn(Lower(page), m)
  {
    if documentation != [] {
      var last := |documentation| - 1;
      var front, lastPage := documentation[..last], documentation[last];
      ModelsInMeaning(front, m);
      assert documentation == front + [lastPage];
      if m in ModelsIn(front) {
        var page :| page in front && MentionedIn(Lower(page), m);
        assert page in documentation;
      } else if m in Mentions(Lower(lastPage)) {
        assert lastPage in documentation;
      }
      if m in KnownModels && exists page :: page in documentation && MentionedIn(Lower(page), m) {
        var page :| page in documentation && MentionedIn(Lower(page), m);
        if page != lastPage {
          assert page in front;
        }
      }
    }
  }

  /** The pages contribute independently: the models of two lists are the union of each's. */
  lemma ModelsInConcat(a: seq<string>, b: seq<string>)
    ensures ModelsIn(a + b) == ModelsIn(a) + ModelsIn(b)
  {
    forall m
      ensures m in ModelsIn(a + b) <==> m in ModelsIn(a) + ModelsIn(b)
    {
      ModelsInMeaning(a + b, m);
      ModelsInMeaning(a, m);
      ModelsInMeaning(b, m);
      assert forall page :: page in a + b <==> page in a || page in b;
    }
  }

  lemma {:induction false} LowerIdempotent(s: string)
    ensures Lower(Lower(s)) == Lower(s)
  {
    if s != [] {
      LowerIdempotent(s[1..]);
    }
  }

  /** Every search term the known models use. */
  const KnownTerms: seq<string> :=
    ["claude", "deepseek", "ollama", "openai", "tabnine", "codeium", "windsurf", "codium", "qodo"]

  /** Every search term of a known model is non-empty and already lower-case. */
  lemma KnownTermsLowerCase(m: Model, t: string)
    requires m in KnownModels && t in SearchTermsOf(m)
    ensures t != "" && Lower(t) == t
  {
    KnownTermListed(m, t);
    ListedTermLowerCase(t);
  }

  lemma KnownTermListed(m: Model, t: string)
    requires m in KnownModels && t in SearchTermsOf(m)
    ensures t in KnownTerms
  {
  }

  lemma ListedTermLowerCase(t: string)
    requires t in KnownTerms
    ensures t != "" && Lower(t) == t
  {
    LowerOfLowerCase(t);
  }

  /**
   * The search is case-insensitive: a page and its lower-cased copy mention
   * the same known models.
   */
  lemma MentionIgnoresCase(page: string)
    ensures ModelsIn([page]) == ModelsIn([Lower(page)])
  {
    LowerIdempotent(page);
    assert [page][..0] == [] && [Lower(page)][..0] == [];
  }

  /** Text no longer than a different needle does not contain it. */
  lemma {:induction false} NotContainsShort(hay: string, needle: string)
    requires |hay| <= |needle| && hay != needle
    ensures !Contains(hay, needle)
  {
    if hay != [] {
      NotContainsShort(hay[1..], needle);
    }
  }

  /** A page that names a model in capitals is tagged with that model alone. */
  lemma GetModelsExample()
    ensures ModelsIn(["OLLAMA"]) == {Ollama}
  {
    assert Lower("OLLAMA") == "ollama";
    OnlyOllamaMentioned(Lower("OLLAMA"));
    assert ["OLLAMA"][..0] == [];
  }

  lemma OnlyOllamaMentioned(lowered: string)
    requires lowered == "ollama"
    ensures forall m :: m in KnownModels ==> (MentionedIn(lowered, m) <==> m == Ollama)
  {
    assert MentionedIn(lowered, Ollama) by {
      assert SearchTermsOf(Ollama) == ["ollama"];
      assert StartsWith(lowered, "ollama");
      assert Contains(lowered, "ollama");
    }
    forall m | m in KnownModels && m != Ollama
      ensures !MentionedIn(lowered, m)
    {
      OtherModelAbsent(lowered, m);
    }
  }

  lemma OtherModelAbsent(lowered: string, m: Model)
    requires lowered == "ollama" && m in KnownModels && m != Ollama
    ensures !MentionedIn(lowered, m)
  {
    forall t | t in SearchTermsOf(m)
      ensures !Contains(lowered, t)
    {
      OtherTermAbsent(lowered, t);
    }
  }

  /** No search term of another model occurs in "ollama". */
  lemma OtherTermAbsent(lowered: string, t: string)
    requires lowered == "ollama"
    requires t in ["claude", "deepseek", "openai", "tabnine", "codeium", "windsurf", "codium", "qodo"]
    ensures !Contains(lowered, t)
  {
    if t == "openai" {
      NotContainsShort(lowered, t);
    } else {
      NotContainsFirst(lowered, t);
    }
  }

  /** Text without the needle's first character does not contain the needle. */
  lemma {:induction false} NotContainsFirst(hay: string, needle: string)
    requires needle != [] && needle[0] !in hay
    ensures !Contains(hay, needle)
  {
    if hay != [] {
      assert hay[1..] <= hay[1..] && forall c :: c in hay[1..] ==> c in hay;
      NotContainsFirst(hay[1..], needle);
      if |needle| <= |hay| {
        assert hay[..|needle|][0] == hay[0];
      }
    }
  }
}
