/** The market-news page's search box: an article stays listed when the search
    term occurs, ignoring letter case, in its headline, its summary or one of its
    ticker symbols. */
module News {
  import opened Base
  import opened Strings

  datatype Article = Article(
    id: string, source: string, timestamp: string, headline: string,
    summary: string, category: string, symbols: seq<string>)

  /** `symbols.some(s => s.toLowerCase().includes(needle))`, for a lower-cased needle. */
  predicate SomeSymbolHas(symbols: seq<string>, needle: string)
    decreases |symbols|
  {
    |symbols| > 0 && (Contains(Lower(symbols[0]), needle) || SomeSymbolHas(symbols[1..], needle))
  }

  /** The position-based reading of `some`. */
  lemma {:induction false} SomeSymbolHasIff(symbols: seq<string>, needle: string)
    ensures SomeSymbolHas(symbols, needle) <==> exists i :: 0 <= i < |symbols| && Contains(Lower(symbols[i]), needle)
    decreases |symbols|
  {
    if |symbols| > 0 {
      SomeSymbolHasIff(symbols[1..], needle);
      if i :| 0 <= i < |symbols[1..]| && Contains(Lower(symbols[1..][i]), needle) {
        assert symbols[1..][i] == symbols[i + 1];
      }
      if i :| 0 <= i < |symbols| && Contains(Lower(symbols[i]), needle) {
        if i > 0 {
          assert symbols[1..][i - 1] == symbols[i];
        }
      }
    }
  }

  /** The filter's test for one article. */
  predicate Mentions(a: Article, term: string)
  {
    var needle := Lower(term);
    Contains(Lower(a.headline), needle) || Contains(Lower(a.summary), needle) || SomeSymbolHas(a.symbols, needle)
  }

  function MentionsTerm(term: string): Article -> bool
  {
    a => Mentions(a, term)
  }

  /** `filteredArticles`: the articles that mention the term, in their original order. */
  function FilterArticles(articles: seq<Article>, term: string): (r: seq<Article>)
    ensures IsSubseq(r, articles)
    ensures forall i :: 0 <= i < |r| ==> Mentions(r[i], term)
    ensures forall i :: 0 <= i < |articles| && Mentions(articles[i], term) ==> articles[i] in r
    ensures |r| == Count(articles, MentionsTerm(term))
  {
    Filter(articles, MentionsTerm(term))
  }

  /** An article of the list is shown exactly when it mentions the term. */
  lemma ShownIffMentions(articles: seq<Article>, term: string, a: Article)
    requires a in articles
    ensures a in FilterArticles(articles, term) <==> Mentions(a, term)
  {
  }

  /** An empty search box lists every article. */
  lemma EmptyTermKeepsAll(articles: seq<Article>)
    ensures FilterArticles(articles, "") == articles
  {
    forall a | a in articles
      ensures Mentions(a, "")
    {
      assert Lower("") == "";
      ContainsEmpty(Lower(a.headline));
    }
    FilterAll(articles, MentionsTerm(""));
  }

  /** Terms that differ only in letter case list the same articles. */
  lemma CaseInsensitive(articles: seq<Article>, t: string, u: string)
    requires Lower(t) == Lower(u)
    ensures FilterArticles(articles, t) == FilterArticles(articles, u)
  {
    FilterCongruent(articles, MentionsTerm(t), MentionsTerm(u));
  }

  /** In particular lower-casing the term first changes nothing. */
  lemma LowerTermSame(articles: seq<Article>, t: string)
    ensures FilterArticles(articles, Lower(t)) == FilterArticles(articles, t)
  {
    LowerLower(t);
    CaseInsensitive(articles, Lower(t), t);
  }

  /** Filtering the listed articles again with the same term changes nothing. */
  lemma FilterArticlesIdempotent(articles: seq<Article>, term: string)
    ensures FilterArticles(FilterArticles(articles, term), term) == FilterArticles(articles, term)
  {
    FilterIdempotent(articles, MentionsTerm(term));
  }

  lemma {:induction false} SomeSymbolHasShorter(symbols: seq<string>, t: string, u: string)
    requires SomeSymbolHas(symbols, t + u)
    ensures SomeSymbolHas(symbols, t)
    decreases |symbols|
  {
    if Contains(Lower(symbols[0]), t + u) {
      ContainsPrefixOfNeedle(Lower(symbols[0]), t, u);
    } else {
      SomeSymbolHasShorter(symbols[1..], t, u);
    }
  }

  /** An article that mentions a term mentions every prefix of it. */
  lemma MentionsPrefix(a: Article, t: string, u: string)
    requires Mentions(a, t + u)
    ensures Mentions(a, t)
  {
    LowerAppend(t, u);
    var nt, nu := Lower(t), Lower(u);
    if Contains(Lower(a.headline), nt + nu) {
      ContainsPrefixOfNeedle(Lower(a.headline), nt, nu);
    } else if Contains(Lower(a.summary), nt + nu) {
      ContainsPrefixOfNeedle(Lower(a.summary), nt, nu);
    } else {
      SomeSymbolHasShorter(a.symbols, nt, nu);
    }
  }

  /** Typing more characters can only shorten the list, never reorder it. */
  lemma ExtendingTermNarrows(articles: seq<Article>, t: string, u: string)
    ensures IsSubseq(FilterArticles(articles, t + u), FilterArticles(articles, t))
  {
    forall a | a in articles && MentionsTerm(t + u)(a)
      ensures MentionsTerm(t)(a)
    {
      MentionsPrefix(a, t, u);
    }
    FilterMonotone(articles, MentionsTerm(t + u), MentionsTerm(t));
  }
}
