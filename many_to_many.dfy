/**
 * Authors, magazines and the articles that link them, many to many.
 *
 * The class-level lists `Article.all` and `Magazine.all` are one explicit
 * `Registry` object, handed to the constructors that append to it and to the
 * queries that scan it. Entities are classes, so `==` on them is reference
 * identity, as Python's default `__eq__` is.
 */
module ManyToMany {
  import opened Wrappers
  import opened Sequences
  import opened Fields

  /** Every `Article` and every `Magazine` ever constructed, in creation order. */
  class Registry {
    var articles: seq<Article>
    var magazines: seq<Magazine>

    constructor ()
      ensures articles == [] && magazines == []
    {
      articles := [];
      magazines := [];
    }
  }

  class Article {
    /** None: the attribute `_author` was never set, because no Author was given. */
    var author: Option<Author>
    /** None: the attribute `_magazine` was never set, because no Magazine was given. */
    var magazine: Option<Magazine>
    /** None: Python's `None`, stored when the title given to the constructor was rejected. */
    var title: Option<string>

    /**
     * `author` and `magazine` go through their setters; null stands for any
     * value that is not an Author (resp. Magazine). The article is registered
     * whatever was rejected.
     */
    constructor (registry: Registry, author: Author?, magazine: Magazine?, title: Value)
      modifies registry
      ensures this.author == (if author == null then None else Some(author))
      ensures this.magazine == (if magazine == null then None else Some(magazine))
      ensures this.title == InitialTitle(title)
      ensures registry.articles == old(registry.articles) + [this]
      ensures this !in old(registry.articles)
      ensures registry.magazines == old(registry.magazines)
    {
      this.author := None;
      this.magazine := None;
      this.title := InitialTitle(title);
      new;
      SetAuthor(author);
      SetMagazine(magazine);
      registry.articles := registry.articles + [this];
    }

    /**
     * The `title` setter assigns only while `_title` does not exist; the
     * constructor always creates it, so every assignment is ignored.
     */
    method SetTitle(value: Value)
      modifies this
      ensures unchanged(this)
    {
    }

    /** The `author` setter: accepts only an Author, otherwise keeps what was there. */
    method SetAuthor(value: Author?)
      modifies this
      ensures author == (if value == null then old(author) else Some(value))
      ensures magazine == old(magazine) && title == old(title)
    {
      if value != null {
        author := Some(value);
      }
    }

    /** The `magazine` setter: accepts only a Magazine, otherwise keeps what was there. */
    method SetMagazine(value: Magazine?)
      modifies this
      ensures magazine == (if value == null then old(magazine) else Some(value))
      ensures author == old(author) && title == old(title)
    {
      if value != null {
        magazine := Some(value);
      }
    }
  }

  class Author {
    /** None: the attribute `_name` does not exist. */
    var name: Option<string>

    constructor (name: Value)
      ensures this.name == AuthorNameAfter(None, name)
    {
      this.name := AuthorNameAfter(None, name);
    }

    /** The `name` setter: write-once (see Fields.AuthorNameWriteOnce). */
    method SetName(value: Value)
      modifies this
      ensures name == AuthorNameAfter(old(name), value)
      ensures old(name).Some? ==> name == old(name)
    {
      name := AuthorNameAfter(name, value);
    }

    /**
     * `articles()`: the registered articles whose author is this one. Comparing
     * an article's author reads `_author`, which raises when an article's
     * author was rejected; hence the precondition.
     */
    function Articles(registry: Registry): seq<Article>
      reads registry, registry.articles
      requires AuthorsSet(registry.articles)
    {
      ArticlesBy(registry.articles, this)
    }

    /** `magazines()`: the distinct magazines of this author's articles (see MagazinesOfAuthor). */
    method Magazines(registry: Registry) returns (ms: seq<Magazine>)
      requires AuthorsSet(registry.articles)
      requires MagazinesSet(ArticlesBy(registry.articles, this))
      ensures ms == Distinct(MagazinesOf(ArticlesBy(registry.articles, this)))
    {
      var arts := Articles(registry);
      ms := [];
      for i := 0 to |arts|
        invariant MagazinesSet(arts[..i])
        invariant ms == Distinct(MagazinesOf(arts[..i]))
      {
        var m := arts[i].magazine.value;
        MagazinesSnoc(arts, i);
        DistinctSnoc(MagazinesOf(arts[..i]), m);
        if m !in ms {
          ms := ms + [m];
        }
      }
      assert arts[..|arts|] == arts;
    }

    /** `add_article`: constructs, registers and returns an article by this author. */
    method AddArticle(registry: Registry, magazine: Magazine?, title: Value) returns (article: Article)
      modifies registry
      ensures fresh(article)
      ensures article.author == Some(this)
      ensures article.magazine == (if magazine == null then None else Some(magazine))
      ensures article.title == InitialTitle(title)
      ensures registry.articles == old(registry.articles) + [article]
      ensures registry.magazines == old(registry.magazines)
      ensures ArticlesBy(registry.articles, this) == old(ArticlesBy(registry.articles, this)) + [article]
    {
      article := new Article(registry, this, magazine, title);
      ArticlesByAppend(old(registry.articles), article, this);
    }

    /**
     * `topic_areas()`: None when this author has no articles; otherwise the
     * distinct categories of the author's magazines, in order (see TopicAreasOfAuthor).
     */
    method TopicAreas(registry: Registry) returns (r: Option<seq<string>>)
      requires AuthorsSet(registry.articles)
      requires MagazinesSet(ArticlesBy(registry.articles, this))
      ensures r.None? <==> ArticlesBy(registry.articles, this) == []
      ensures r.Some? ==> r.value == Distinct(CategoriesOf(Distinct(MagazinesOf(ArticlesBy(registry.articles, this)))))
    {
      if |Articles(registry)| == 0 {
        return None;
      }
      var ms := Magazines(registry);
      var categories := CategoriesOfMagazines(registry, this, ms);
      assert ArticlesBy(registry.articles, this) != [];
      return Some(categories);
    }
  }

  class Magazine {
    var name: string
    var category: string

    /** Both properties go through their setters' first assignment; the magazine is registered. */
    constructor (registry: Registry, name: Value, category: Value)
      modifies registry
      ensures this.name == Revalidated(MagazineName, None, name)
      ensures this.category == Revalidated(Category, None, category)
      ensures registry.magazines == old(registry.magazines) + [this]
      ensures this !in old(registry.magazines)
      ensures registry.articles == old(registry.articles)
    {
      this.name := Revalidated(MagazineName, None, name);
      this.category := Revalidated(Category, None, category);
      new;
      registry.magazines := registry.magazines + [this];
    }

    /** The `name` setter: an accepted value replaces the name, a rejected one is ignored. */
    method SetName(value: Value)
      modifies this
      ensures name == Revalidated(MagazineName, Some(old(name)), value)
      ensures Accepts(MagazineName, value) ==> name == value.s
      ensures !Accepts(MagazineName, value) ==> name == old(name)
      ensures category == old(category)
    {
      name := Revalidated(MagazineName, Some(name), value);
    }

    /** The `category` setter: an accepted value replaces the category, a rejected one is ignored. */
    method SetCategory(value: Value)
      modifies this
      ensures category == Revalidated(Category, Some(old(category)), value)
      ensures Accepts(Category, value) ==> category == value.s
      ensures !Accepts(Category, value) ==> category == old(category)
      ensures name == old(name)
    {
      category := Revalidated(Category, Some(category), value);
    }

    /**
     * `articles()`: the registered articles whose magazine is this one.
     * Comparing an article's magazine reads `_magazine`, which raises when an
     * article's magazine was rejected; hence the precondition.
     */
    function Articles(registry: Registry): seq<Article>
      reads registry, registry.articles
      requires MagazinesSet(registry.articles)
    {
      ArticlesIn(registry.articles, this)
    }

    /** `contributors()`: the distinct authors of this magazine's articles (see ContributorsOfMagazine). */
    method Contributors(registry: Registry) returns (authors: seq<Author>)
      requires MagazinesSet(registry.articles)
      requires AuthorsSet(ArticlesIn(registry.articles, this))
      ensures authors == Distinct(AuthorsOf(ArticlesIn(registry.articles, this)))
    {
      var arts := Articles(registry);
      authors := [];
      for i := 0 to |arts|
        invariant AuthorsSet(arts[..i])
        invariant authors == Distinct(AuthorsOf(arts[..i]))
      {
        var a := arts[i].author.value;
        AuthorsSnoc(arts, i);
        DistinctSnoc(AuthorsOf(arts[..i]), a);
        if a !in authors {
          authors := authors + [a];
        }
      }
      assert arts[..|arts|] == arts;
    }

    /** `article_titles()`: None when this magazine has no articles; otherwise their titles, in creation order. */
    function ArticleTitles(registry: Registry): (r: Option<seq<Option<string>>>)
      reads registry, registry.articles
      requires MagazinesSet(registry.articles)
      ensures r.None? <==> ArticlesIn(registry.articles, this) == []
      ensures r.Some? ==> |r.value| == |ArticlesIn(registry.articles, this)|
      ensures r.Some? ==> forall i :: 0 <= i < |r.value| ==> r.value[i] == ArticlesIn(registry.articles, this)[i].title
    {
      var arts := Articles(registry);
      if |arts| == 0 then None else Some(TitlesOf(arts))
    }

    /**
     * `contributing_authors()`: None when no author wrote more than two of
     * this magazine's articles (in particular when it has none); otherwise
     * those authors (see ContributingAuthorsOfMagazine).
     */
    method ContributingAuthors(registry: Registry) returns (r: Option<seq<Author>>)
      requires MagazinesSet(registry.articles)
      requires AuthorsSet(ArticlesIn(registry.articles, this))
      ensures r.None? <==> Prolific(ArticlesIn(registry.articles, this)) == []
      ensures r.Some? ==> r.value == Prolific(ArticlesIn(registry.articles, this))
    {
      var arts := Articles(registry);
      if |arts| == 0 {
        assert AuthorsOf(arts) == [];
        assert Prolific(arts) == [];
        return None;
      }
      ghost var all, spec := AuthorsOf(arts), Prolific(arts);
      var keys, counts := CountAuthors(arts);
      assert AuthorsOf(arts) == all;
      assert Prolific(ArticlesIn(registry.articles, this)) == spec;
      forall i | 0 <= i < |keys|
        ensures keys[i] in all
      {
        DistinctMembers(all, keys[i]);
      }
      AboveTally(keys, all, 2);
      var prolific := Above(keys, counts, 2);
      if |prolific| == 0 {
        return None;
      }
      return Some(prolific);
    }

    /**
     * `top_publisher`, a class method: None when either registry is empty or
     * no magazine has an article; otherwise the first magazine, in registry
     * order, whose article count no other magazine's exceeds.
     */
    static method TopPublisher(registry: Registry) returns (top: Option<Magazine>)
      requires registry.articles == [] || registry.magazines == [] || MagazinesSet(registry.articles)
      ensures top.None? <==>
        || registry.articles == []
        || registry.magazines == []
        || forall i :: 0 <= i < |registry.magazines| ==> |ArticlesIn(registry.articles, registry.magazines[i])| == 0
      ensures top.Some? ==>
        exists i :: 0 <= i < |registry.magazines| && registry.magazines[i] == top.value &&
                    FirstMaximum(registry.articles, registry.magazines, i)
    {
      if |registry.articles| == 0 {
        return None;
      }
      if |registry.magazines| == 0 {
        return None;
      }
      var ms := registry.magazines;
      var maxMagazine: Option<Magazine> := None;
      var maxCount := 0;
      ghost var maxIndex := 0;
      for i := 0 to |ms|
        invariant forall j :: 0 <= j < i ==> |ArticlesIn(registry.articles, ms[j])| <= maxCount
        invariant maxMagazine.None? ==> maxCount == 0
        invariant maxMagazine.Some? ==>
          && 0 <= maxIndex < i
          && ms[maxIndex] == maxMagazine.value
          && maxCount == |ArticlesIn(registry.articles, ms[maxIndex])| > 0
          && forall j :: 0 <= j < maxIndex ==> |ArticlesIn(registry.articles, ms[j])| < maxCount
      {
        var articleCount := |ms[i].Articles(registry)|;
        if articleCount > maxCount {
          maxCount := articleCount;
          maxMagazine := Some(ms[i]);
          maxIndex := i;
        }
      }
      return maxMagazine;
    }
  }

  // ---------------------------------------------------------------------------
  // The loops inside the queries.

  /**
   * The loop of `topic_areas()`, over the magazines ms that `magazines()`
   * returned for author: their categories, each once, in order of first
   * occurrence.
   */
  method CategoriesOfMagazines(registry: Registry, author: Author, ms: seq<Magazine>) returns (categories: seq<string>)
    requires MagazinesSet(ArticlesBy(registry.articles, author))
    requires ms == Distinct(MagazinesOf(ArticlesBy(registry.articles, author)))
    ensures categories == Distinct(CategoriesOf(Distinct(MagazinesOf(ArticlesBy(registry.articles, author)))))
  {
    categories := [];
    for i := 0 to |ms|
      invariant categories == Distinct(CategoriesOf(ms[..i]))
    {
      var c := ms[i].category;
      DistinctCategoriesStep(ms, i);
      if c !in categories {
        categories := categories + [c];
      }
    }
    assert ms[..|ms|] == ms;
    assert categories == Distinct(CategoriesOf(ms));
  }

  /**
   * The counting loop of `contributing_authors()`. The dictionary
   * `author_counts` is insertion-ordered: `keys` holds its keys in insertion
   * order and `counts` the counts. The keys are the distinct authors of arts
   * in order of first occurrence (Sequences.DistinctOrder), and each count is
   * the number of articles in arts by that author (Sequences.TallyCounts).
   */
  method CountAuthors(arts: seq<Article>) returns (keys: seq<Author>, counts: map<Author, nat>)
    requires AuthorsSet(arts)
    ensures keys == Distinct(AuthorsOf(arts))
    ensures counts == Tally(AuthorsOf(arts))
  {
    keys := [];
    counts := map[];
    for i := 0 to |arts|
      invariant AuthorsSet(arts[..i])
      invariant keys == Distinct(AuthorsOf(arts[..i]))
      invariant counts == Tally(AuthorsOf(arts[..i]))
      invariant forall a :: a in counts <==> a in keys
    {
      var a := arts[i].author.value;
      AuthorsSnoc(arts, i);
      DistinctSnoc(AuthorsOf(arts[..i]), a);
      TallySnoc(AuthorsOf(arts[..i]), a);
      if a in counts {
        counts := counts[a := counts[a] + 1];
      } else {
        counts := counts[a := 1];
        keys := keys + [a];
      }
    }
    assert arts[..|arts|] == arts;
  }

  // ---------------------------------------------------------------------------
  // The scans over the registry, as functions.

  /** Every article in arts has an author (the attribute `_author` exists). */
  predicate AuthorsSet(arts: seq<Article>)
    reads arts
  {
    forall i :: 0 <= i < |arts| ==> arts[i].author.Some?
  }

  /** Every article in arts has a magazine (the attribute `_magazine` exists). */
  predicate MagazinesSet(arts: seq<Article>)
    reads arts
  {
    forall i :: 0 <= i < |arts| ==> arts[i].magazine.Some?
  }

  /** The articles in arts written by author, in order (the comprehension of `Author.articles`). */
  function ArticlesBy(arts: seq<Article>, author: Author): (r: seq<Article>)
    reads arts
    ensures forall i :: 0 <= i < |r| ==> r[i] in arts
  {
    if arts == [] then []
    else
      var last := arts[|arts| - 1];
      ArticlesBy(arts[..|arts| - 1], author) + if last.author == Some(author) then [last] else []
  }

  /** The articles in arts published in magazine, in order (the comprehension of `Magazine.articles`). */
  function ArticlesIn(arts: seq<Article>, magazine: Magazine): (r: seq<Article>)
    reads arts
    ensures forall i :: 0 <= i < |r| ==> r[i] in arts
  {
    if arts == [] then []
    else
      var last := arts[|arts| - 1];
      ArticlesIn(arts[..|arts| - 1], magazine) + if last.magazine == Some(magazine) then [last] else []
  }

  /** The magazine of each article, in order. */
  function MagazinesOf(arts: seq<Article>): (r: seq<Magazine>)
    reads arts
    requires MagazinesSet(arts)
    ensures |r| == |arts|
  {
    if arts == [] then [] else MagazinesOf(arts[..|arts| - 1]) + [arts[|arts| - 1].magazine.value]
  }

  /** The author of each article, in order. */
  function AuthorsOf(arts: seq<Article>): (r: seq<Author>)
    reads arts
    requires AuthorsSet(arts)
    ensures |r| == |arts|
  {
    if arts == [] then [] else AuthorsOf(arts[..|arts| - 1]) + [arts[|arts| - 1].author.value]
  }

  /** The category of each magazine, in order. */
  function CategoriesOf(ms: seq<Magazine>): (r: seq<string>)
    reads ms
    ensures |r| == |ms|
  {
    if ms == [] then [] else CategoriesOf(ms[..|ms| - 1]) + [ms[|ms| - 1].category]
  }

  /**
   * The authors of more than two of arts, each once, in order of their first
   * article (see ContributingAuthorsOfMagazine).
   */
  function Prolific(arts: seq<Article>): seq<Author>
    reads arts
    requires AuthorsSet(arts)
  {
    Frequent(Distinct(AuthorsOf(arts)), AuthorsOf(arts), 2)
  }

  /** The title of each article, in order. */
  function TitlesOf(arts: seq<Article>): (r: seq<Option<string>>)
    reads arts
    ensures |r| == |arts| && forall i :: 0 <= i < |arts| ==> r[i] == arts[i].title
  {
    if arts == [] then [] else TitlesOf(arts[..|arts| - 1]) + [arts[|arts| - 1].title]
  }

  /**
   * ms[k] has at least one article, at least as many as every magazine in ms,
   * and strictly more than every magazine before it.
   */
  ghost predicate FirstMaximum(arts: seq<Article>, ms: seq<Magazine>, k: int)
    reads arts
  {
    && 0 <= k < |ms|
    && |ArticlesIn(arts, ms[k])| > 0
    && (forall j :: 0 <= j < |ms| ==> |ArticlesIn(arts, ms[j])| <= |ArticlesIn(arts, ms[k])|)
    && (forall j :: 0 <= j < k ==> |ArticlesIn(arts, ms[j])| < |ArticlesIn(arts, ms[k])|)
  }

  // ---------------------------------------------------------------------------
  // What the queries return, and how registering an article changes them.

  /** An author's articles are exactly the registered articles whose author is that author. */
  lemma {:induction false} ArticlesByMembers(arts: seq<Article>, author: Author, a: Article)
    ensures a in ArticlesBy(arts, author) <==> a in arts && a.author == Some(author)
  {
    if arts != [] {
      var p := arts[..|arts| - 1];
      assert arts == p + [arts[|arts| - 1]];
      ArticlesByMembers(p, author, a);
    }
  }

  /** A magazine's articles are exactly the registered articles whose magazine is that magazine. */
  lemma {:induction false} ArticlesInMembers(arts: seq<Article>, magazine: Magazine, a: Article)
    ensures a in ArticlesIn(arts, magazine) <==> a in arts && a.magazine == Some(magazine)
  {
    if arts != [] {
      var p := arts[..|arts| - 1];
      assert arts == p + [arts[|arts| - 1]];
      ArticlesInMembers(p, magazine, a);
    }
  }

  /** Registering one more article extends an author's articles by it exactly when it is theirs. */
  lemma ArticlesByAppend(arts: seq<Article>, article: Article, author: Author)
    ensures ArticlesBy(arts + [article], author) ==
              ArticlesBy(arts, author) + if article.author == Some(author) then [article] else []
  {
    assert (arts + [article])[..|arts|] == arts;
  }

  /** Registering one more article extends a magazine's articles by it exactly when it is in it. */
  lemma ArticlesInAppend(arts: seq<Article>, article: Article, magazine: Magazine)
    ensures ArticlesIn(arts + [article], magazine) ==
              ArticlesIn(arts, magazine) + if article.magazine == Some(magazine) then [article] else []
  {
    assert (arts + [article])[..|arts|] == arts;
  }

  lemma {:induction false} MagazinesOfMembers(arts: seq<Article>, m: Magazine)
    requires MagazinesSet(arts)
    ensures m in MagazinesOf(arts) <==> exists a :: a in arts && a.magazine == Some(m)
  {
    if arts != [] {
      var p, last := arts[..|arts| - 1], arts[|arts| - 1];
      assert arts == p + [last];
      MagazinesOfMembers(p, m);
      if m in MagazinesOf(arts) && m != last.magazine.value {
        assert m in MagazinesOf(p);
      }
    }
  }

  lemma {:induction false} AuthorsOfMembers(arts: seq<Article>, au: Author)
    requires AuthorsSet(arts)
    ensures au in AuthorsOf(arts) <==> exists a :: a in arts && a.author == Some(au)
  {
    if arts != [] {
      var p, last := arts[..|arts| - 1], arts[|arts| - 1];
      assert arts == p + [last];
      AuthorsOfMembers(p, au);
      if au in AuthorsOf(arts) && au != last.author.value {
        assert au in AuthorsOf(p);
      }
    }
  }

  /**
   * `Author.magazines()` lists every magazine of the author's articles, and
   * nothing else, once each, in the order in which the articles first name them.
   */
  lemma MagazinesOfAuthor(arts: seq<Article>, author: Author)
    requires MagazinesSet(ArticlesBy(arts, author))
    ensures NoDuplicates(Distinct(MagazinesOf(ArticlesBy(arts, author))))
    ensures FirstOccurrenceOrder(Distinct(MagazinesOf(ArticlesBy(arts, author))), MagazinesOf(ArticlesBy(arts, author)))
    ensures forall m :: m in Distinct(MagazinesOf(ArticlesBy(arts, author))) <==>
              exists a :: a in arts && a.author == Some(author) && a.magazine == Some(m)
  {
    var mine := ArticlesBy(arts, author);
    DistinctNoDuplicates(MagazinesOf(mine));
    DistinctOrder(MagazinesOf(mine));
    forall m ensures m in Distinct(MagazinesOf(mine)) <==>
                     exists a :: a in arts && a.author == Some(author) && a.magazine == Some(m)
    {
      DistinctMembers(MagazinesOf(mine), m);
      MagazinesOfMembers(mine, m);
      forall a ensures a in mine <==> a in arts && a.author == Some(author) {
        ArticlesByMembers(arts, author, a);
      }
    }
  }

  /**
   * `Magazine.contributors()` lists every author of the magazine's articles,
   * and nothing else, once each, in the order in which the articles first name them.
   */
  lemma ContributorsOfMagazine(arts: seq<Article>, magazine: Magazine)
    requires AuthorsSet(ArticlesIn(arts, magazine))
    ensures NoDuplicates(Distinct(AuthorsOf(ArticlesIn(arts, magazine))))
    ensures FirstOccurrenceOrder(Distinct(AuthorsOf(ArticlesIn(arts, magazine))), AuthorsOf(ArticlesIn(arts, magazine)))
    ensures forall au :: au in Distinct(AuthorsOf(ArticlesIn(arts, magazine))) <==>
              exists a :: a in arts && a.magazine == Some(magazine) && a.author == Some(au)
  {
    var theirs := ArticlesIn(arts, magazine);
    DistinctNoDuplicates(AuthorsOf(theirs));
    DistinctOrder(AuthorsOf(theirs));
    forall au ensures au in Distinct(AuthorsOf(theirs)) <==>
                      exists a :: a in arts && a.magazine == Some(magazine) && a.author == Some(au)
    {
      DistinctMembers(AuthorsOf(theirs), au);
      AuthorsOfMembers(theirs, au);
      forall a ensures a in theirs <==> a in arts && a.magazine == Some(magazine) {
        ArticlesInMembers(arts, magazine, a);
      }
    }
  }

  /** The number of an author's articles in arts is the number of times AuthorsOf(arts) names them. */
  lemma {:induction false} AuthorCount(arts: seq<Article>, au: Author)
    requires AuthorsSet(arts)
    ensures multiset(AuthorsOf(arts))[au] == |ArticlesBy(arts, au)|
  {
    if arts != [] {
      var p, last := arts[..|arts| - 1], arts[|arts| - 1];
      assert arts == p + [last];
      AuthorCount(p, au);
    }
  }

  /**
   * `Magazine.contributing_authors()` yields the authors of more than two of
   * the magazine's articles, and nothing else, once each, in the order of
   * their first article there; it is empty exactly when no author wrote more
   * than two of them (and the method then returns None).
   */
  lemma ContributingAuthorsOfMagazine(arts: seq<Article>, magazine: Magazine)
    requires AuthorsSet(ArticlesIn(arts, magazine))
    ensures NoDuplicates(Prolific(ArticlesIn(arts, magazine)))
    ensures FirstOccurrenceOrder(Prolific(ArticlesIn(arts, magazine)), AuthorsOf(ArticlesIn(arts, magazine)))
    ensures forall au :: au in Prolific(ArticlesIn(arts, magazine)) <==> |ArticlesBy(ArticlesIn(arts, magazine), au)| > 2
    ensures Prolific(ArticlesIn(arts, magazine)) == [] <==>
              forall au :: |ArticlesBy(ArticlesIn(arts, magazine), au)| <= 2
  {
    var theirs := ArticlesIn(arts, magazine);
    FrequentOfDistinct(AuthorsOf(theirs), 2);
    forall au ensures multiset(AuthorsOf(theirs))[au] == |ArticlesBy(theirs, au)| {
      AuthorCount(theirs, au);
    }
  }

  /** A category occurs in CategoriesOf(ms) exactly when some magazine in ms has it. */
  lemma {:induction false} CategoriesOfMembers(ms: seq<Magazine>, c: string)
    ensures c in CategoriesOf(ms) <==> exists m :: m in ms && m.category == c
  {
    if ms != [] {
      var p, last := ms[..|ms| - 1], ms[|ms| - 1];
      assert ms == p + [last];
      CategoriesOfMembers(p, c);
      if c in CategoriesOf(ms) && c != last.category {
        assert c in CategoriesOf(p);
      }
    }
  }

  /**
   * `Author.topic_areas()`, when the author has articles, yields the
   * categories of the magazines of the author's articles, and nothing else,
   * once each, in order of first occurrence; deduplicating the magazines
   * first changes nothing.
   */
  lemma TopicAreasOfAuthor(arts: seq<Article>, author: Author)
    requires MagazinesSet(ArticlesBy(arts, author))
    ensures Distinct(CategoriesOf(Distinct(MagazinesOf(ArticlesBy(arts, author))))) ==
              Distinct(CategoriesOf(MagazinesOf(ArticlesBy(arts, author))))
    ensures NoDuplicates(Distinct(CategoriesOf(Distinct(MagazinesOf(ArticlesBy(arts, author))))))
    ensures forall c :: c in Distinct(CategoriesOf(Distinct(MagazinesOf(ArticlesBy(arts, author))))) <==>
              exists a :: a in arts && a.author == Some(author) && a.magazine.Some? && a.magazine.value.category == c
  {
    var mine := ArticlesBy(arts, author);
    var ms := MagazinesOf(mine);
    DistinctCategories(ms);
    DistinctNoDuplicates(CategoriesOf(ms));
    forall c ensures c in Distinct(CategoriesOf(ms)) <==>
                     exists a :: a in arts && a.author == Some(author) && a.magazine.Some? && a.magazine.value.category == c
    {
      DistinctMembers(CategoriesOf(ms), c);
      CategoriesOfMembers(ms, c);
      if c in CategoriesOf(ms) {
        var m :| m in ms && m.category == c;
        MagazinesOfMembers(mine, m);
        var a :| a in mine && a.magazine == Some(m);
        ArticlesByMembers(arts, author, a);
      }
      if exists a :: a in arts && a.author == Some(author) && a.magazine.Some? && a.magazine.value.category == c {
        var a :| a in arts && a.author == Some(author) && a.magazine.Some? && a.magazine.value.category == c;
        ArticlesByMembers(arts, author, a);
        MagazinesOfMembers(mine, a.magazine.value);
      }
    }
  }

  lemma MagazinesSnoc(arts: seq<Article>, i: nat)
    requires i < |arts| && MagazinesSet(arts)
    ensures MagazinesSet(arts[..i]) && MagazinesSet(arts[..i + 1])
    ensures MagazinesOf(arts[..i + 1]) == MagazinesOf(arts[..i]) + [arts[i].magazine.value]
  {
    assert arts[..i + 1][..i] == arts[..i];
  }

  lemma AuthorsSnoc(arts: seq<Article>, i: nat)
    requires i < |arts| && AuthorsSet(arts)
    ensures AuthorsSet(arts[..i]) && AuthorsSet(arts[..i + 1])
    ensures AuthorsOf(arts[..i + 1]) == AuthorsOf(arts[..i]) + [arts[i].author.value]
  {
    assert arts[..i + 1][..i] == arts[..i];
  }

  lemma CategoriesSnoc(ms: seq<Magazine>, m: Magazine)
    ensures CategoriesOf(ms + [m]) == CategoriesOf(ms) + [m.category]
  {
    assert (ms + [m])[..|ms|] == ms;
  }

  lemma {:induction false} CategoriesMember(ms: seq<Magazine>, m: Magazine)
    requires m in ms
    ensures m.category in CategoriesOf(ms)
  {
    var p := ms[..|ms| - 1];
    assert ms == p + [ms[|ms| - 1]];
    if m != ms[|ms| - 1] {
      CategoriesMember(p, m);
    }
  }

  lemma DistinctCategoriesStep(ms: seq<Magazine>, i: nat)
    requires i < |ms|
    ensures Distinct(CategoriesOf(ms[..i + 1])) ==
      var d := Distinct(CategoriesOf(ms[..i]));
      if ms[i].category in d then d else d + [ms[i].category]
  {
    assert ms[..i + 1] == ms[..i] + [ms[i]];
    CategoriesSnoc(ms[..i], ms[i]);
    DistinctSnoc(CategoriesOf(ms[..i]), ms[i].category);
  }

  /**
   * `topic_areas()` deduplicates the magazines and then their categories;
   * deduplicating the magazines first makes no difference.
   */
  lemma {:induction false} DistinctCategories(ms: seq<Magazine>)
    ensures Distinct(CategoriesOf(Distinct(ms))) == Distinct(CategoriesOf(ms))
  {
    if ms != [] {
      var p, x := ms[..|ms| - 1], ms[|ms| - 1];
      assert ms == p + [x];
      DistinctCategories(p);
      var d := Distinct(p);
      var cp := CategoriesOf(p);
      CategoriesSnoc(p, x);
      DistinctSnoc(p, x);
      DistinctSnoc(cp, x.category);
      if x in d {
        DistinctMembers(p, x);
        CategoriesMember(p, x);
        DistinctMembers(cp, x.category);
      } else {
        CategoriesSnoc(d, x);
        DistinctSnoc(CategoriesOf(d), x.category);
      }
    }
  }
}
