# Authors, magazines and articles, many to many

This project models the object model of `lib/classes/many_to_many.py` in Dafny and proves properties about it. The model has three entities:

- an `Author` writes articles;
- a `Magazine` publishes them;
- an `Article` links one author to one magazine and carries a title.

The class-level lists `Article.all` and `Magazine.all` keep every instance ever created. Here they are one explicit `Registry` object. The constructors append to it and the queries scan it.

The model has four modules:

- `Wrappers` holds the `Option` type used for attributes that may not exist or may hold `None`.
- `Fields` holds the validation of each property, as functions from the value stored before and the value assigned to the value stored after. It also holds lemmas about whole sequences of assignments:
  - an article's title is fixed at construction;
  - an author's name is write-once;
  - a magazine's name and category are revalidated on every assignment, with a fallback on the first one.
- `Sequences` holds three generic operations and their lemmas:
  - first-occurrence deduplication, which is the `if x not in acc: acc.append(x)` loop;
  - counting occurrences into a dictionary;
  - keeping the keys whose count exceeds a bound.
- `ManyToMany` holds the `Registry`, `Article`, `Author` and `Magazine` classes.
  - Each property setter is a method that updates the field in place.
  - Each query that loops is a method with loop invariants, proved against a specification function over the registry.
  - Each query that is a list comprehension (`articles()`, `article_titles()`) is a function.
  - Lemmas state what those specification functions mean, in terms of the articles in the registry.

Python's `isinstance(value, str)` tests are modelled by `Fields.Value = Str(s) | NonStr`. The `isinstance(value, Author)` and `isinstance(value, Magazine)` tests are modelled by the nullable types `Author?` and `Magazine?`: `null` stands for any value of another class. Entities are Dafny classes, so `==` on them is reference identity, like Python's default `__eq__`.

Two loops live in their own methods, next to the query that contains them:

- `CategoriesOfMagazines` is the loop of `topic_areas()`;
- `CountAuthors` is the dictionary-building loop of `contributing_authors()`.

Each keeps the source's iteration and branches.

## Model

| member | source | states |
|---|---|---|
| Fields.InitialTitle | lib/classes/many_to_many.py:8-12 | The title stored at construction is `Some(title)` exactly when the title is a string of 5 to 50 characters, and `None` otherwise |
| ManyToMany.Registry.constructor | lib/classes/many_to_many.py:1-2 | Both registries start empty |
| ManyToMany.Article.constructor | lib/classes/many_to_many.py:4-15 | Author and magazine are set only when they are instances of the right class, otherwise they stay unset. The title is stored as `InitialTitle` gives it. The article is appended once, at the end of the article registry, even when something was rejected. Nothing else in the registry changes |
| ManyToMany.Article.SetTitle | lib/classes/many_to_many.py:21-28 | `_title` always exists after construction, so an assignment changes nothing, even when the stored title is `None` |
| ManyToMany.Article.SetAuthor | lib/classes/many_to_many.py:34-37 | An Author replaces the author. Any other value leaves it as it was. Magazine and title are unchanged |
| ManyToMany.Article.SetMagazine | lib/classes/many_to_many.py:43-46 | A Magazine replaces the magazine. Any other value leaves it as it was. Author and title are unchanged |
| ManyToMany.Author.constructor | lib/classes/many_to_many.py:49-53 | The name exists only if the value is a non-empty string |
| ManyToMany.Author.SetName | lib/classes/many_to_many.py:59-66 | An existing name never changes. A missing name is set by a non-empty string only |
| Fields.AuthorNameWriteOnce | lib/classes/many_to_many.py:59-66 | Once an author has a name, no sequence of assignments changes it |
| Fields.AuthorNameIsFirstAccepted | lib/classes/many_to_many.py:49-66 | An author that starts without a name ends up with the first non-empty string assigned. If no non-empty string was assigned, it still has no name |
| ManyToMany.Magazine.constructor | lib/classes/many_to_many.py:98-101 | Name and category go through their setters' first assignment. The magazine is appended to the magazine registry and the article registry is unchanged |
| ManyToMany.Magazine.SetName | lib/classes/many_to_many.py:107-114 | A string of 2 to 16 characters replaces the name. Any other value leaves the name as it was. The category is unchanged |
| ManyToMany.Magazine.SetCategory | lib/classes/many_to_many.py:120-127 | A non-empty string replaces the category. Any other value leaves it as it was. The name is unchanged |
| Fields.RevalidatedNoneAccepted | lib/classes/many_to_many.py:107-127 | If no value assigned, from the constructor on, was valid, the property holds the constructor's value when it is a string, and `""` otherwise |
| Fields.RevalidatedIsLastAccepted | lib/classes/many_to_many.py:107-127 | After any sequence of assignments, the property holds the last valid value assigned |
| Fields.RevalidatedStaysAccepted | lib/classes/many_to_many.py:107-127 | A property that starts out valid holds a valid value after any sequence of assignments |
| ManyToMany.ArticlesByMembers | lib/classes/many_to_many.py:68-70 | `Author.articles()` holds exactly the registered articles whose author is this author |
| ManyToMany.ArticlesInMembers | lib/classes/many_to_many.py:129-131 | `Magazine.articles()` holds exactly the registered articles whose magazine is this magazine |
| ManyToMany.ArticlesByAppend | lib/classes/many_to_many.py:68-70 | Registering one more article extends an author's `articles()` by that article exactly when it is theirs, and leaves it unchanged otherwise |
| ManyToMany.ArticlesInAppend | lib/classes/many_to_many.py:129-131 | Registering one more article extends a magazine's `articles()` by that article exactly when it is in that magazine, and leaves it unchanged otherwise |
| ManyToMany.Author.AddArticle | lib/classes/many_to_many.py:80-83 | Returns a new article by this author, with the given magazine and title, appended to the registry. The author's `articles()` grows by exactly that article |
| ManyToMany.Author.Magazines | lib/classes/many_to_many.py:72-78 | The loop returns the first-occurrence deduplication of the magazines of the author's articles |
| ManyToMany.MagazinesOfAuthor | lib/classes/many_to_many.py:72-78 | That list has no duplicates. It lists exactly the magazines of the author's articles, in order of first occurrence |
| ManyToMany.Author.TopicAreas | lib/classes/many_to_many.py:85-93 | Returns `None` exactly when the author has no articles. Otherwise it returns the deduplicated categories of `magazines()` |
| ManyToMany.CategoriesOfMagazines | lib/classes/many_to_many.py:89-92 | The loop over `magazines()` returns their categories, deduplicated in order of first occurrence |
| ManyToMany.TopicAreasOfAuthor | lib/classes/many_to_many.py:85-93 | Those categories have no duplicates. They are exactly the categories of the magazines of the author's articles. Deduplicating the magazines first makes no difference |
| ManyToMany.DistinctCategories | lib/classes/many_to_many.py:89-92 | Deduplicating categories of deduplicated magazines equals deduplicating the categories of all of them |
| ManyToMany.Magazine.Contributors | lib/classes/many_to_many.py:133-139 | The loop returns the first-occurrence deduplication of the authors of the magazine's articles |
| ManyToMany.ContributorsOfMagazine | lib/classes/many_to_many.py:133-139 | That list has no duplicates. It lists exactly the authors of the magazine's articles, in order of first occurrence |
| ManyToMany.Magazine.ArticleTitles | lib/classes/many_to_many.py:141-146 | Returns `None` exactly when the magazine has no articles. Otherwise it returns their titles, one per article, in registry order |
| ManyToMany.CountAuthors | lib/classes/many_to_many.py:154-160 | The dictionary's keys, in insertion order, are the distinct authors of the articles in order of first occurrence. The counts are the tally of those authors |
| Sequences.TallyCounts | lib/classes/many_to_many.py:154-160 | The tally has a key for exactly the elements that occur, and the key's count is the number of occurrences |
| ManyToMany.AuthorCount | lib/classes/many_to_many.py:154-160 | An author's number of occurrences among the articles' authors is the number of articles by that author |
| Sequences.AboveTally | lib/classes/many_to_many.py:163 | Filtering the tally's keys by `count > n` keeps exactly the keys that occur more than n times, in key order |
| ManyToMany.Magazine.ContributingAuthors | lib/classes/many_to_many.py:148-167 | Returns `None` exactly when no author has more than two of the magazine's articles, which includes a magazine with no articles. Otherwise it returns those authors |
| ManyToMany.ContributingAuthorsOfMagazine | lib/classes/many_to_many.py:148-167 | The authors returned are exactly those with more than two of the magazine's articles. There are no duplicates and they come in order of first article. The list is empty exactly when no author has more than two |
| ManyToMany.Magazine.TopPublisher | lib/classes/many_to_many.py:169-188 | Returns `None` exactly when a registry is empty or every magazine has no article. Otherwise it returns the earliest registered magazine whose article count is positive and not exceeded by any other magazine's; ties keep the first, by strict `>` |
| Sequences.DistinctMembers | lib/classes/many_to_many.py:74-77 | First-occurrence deduplication keeps exactly the elements of its input |
| Sequences.DistinctNoDuplicates | lib/classes/many_to_many.py:74-77 | First-occurrence deduplication repeats no element |
| Sequences.DistinctOrder | lib/classes/many_to_many.py:74-77 | First-occurrence deduplication lists the elements in order of first occurrence |
| Sequences.FrequentMembers | lib/classes/many_to_many.py:163 | Filtering keys by occurrence count keeps exactly the keys that occur more than n times |
| Sequences.FrequentOrder | lib/classes/many_to_many.py:163 | Filtering keys by occurrence count keeps their relative order |
| Sequences.FrequentNoDuplicates | lib/classes/many_to_many.py:163 | Filtering duplicate-free keys gives a duplicate-free result |
| Sequences.FrequentOfDistinct | lib/classes/many_to_many.py:155-167 | The distinct elements that occur more than n times have no duplicates and come in order of first occurrence. They are exactly the elements occurring more than n times. The list is empty exactly when no element does |

## Left out

- Dynamic typing: only the `isinstance` tests the source makes are modelled. A string-typed property receives a `Value` (a string, or anything else); an author or magazine slot receives `Author?`/`Magazine?`, with `null` for an object of any other class.
- The `AttributeError` raised when reading an attribute that was never set is not modelled as an exception. The queries require the attributes they read to exist:
  - `articles()`, `magazines()` and `topic_areas()` require every registered article to have an author (`AuthorsSet`);
  - the magazine-side queries and `top_publisher()` require every registered article to have a magazine (`MagazinesSet`);
  - `magazines()` and `topic_areas()` also require the magazine of each of the author's articles;
  - `contributors()` and `contributing_authors()` also require the author of each of the magazine's articles.
  The source raises in exactly those cases. Reading an author's missing `name` is represented by `None`.
- The second validity check in the article constructor (lib/classes/many_to_many.py:13-14) is dead code: it repeats the condition whose `else` branch it sits in. It is not modelled.
- `Article.all` and `Magazine.all` are process-global class attributes. Here they are fields of a `Registry` passed explicitly.
- Strings are sequences of Dafny characters (Unicode scalar values), so `len` counts the same as Python does. Python strings holding lone surrogate code points have no counterpart and are not modelled.
- The dictionary `author_counts` is modelled as its keys in insertion order plus a map from key to count. Python's hashing is not modelled; keys are compared by identity.
- The property getters (`title`, `author`, `magazine`, `name`, `category`) are plain field reads in the model and have no members of their own.
- `Author.Articles` and `Magazine.Articles` (the `articles()` comprehensions) have no contract of their own. Their meaning is stated by `ArticlesByMembers`, `ArticlesInMembers`, `ArticlesByAppend` and `ArticlesInAppend`, about the functions `ArticlesBy` and `ArticlesIn` they return.
- The comprehension that filters `author_counts` (lib/classes/many_to_many.py:163) is the function `Sequences.Above`; `AboveTally` states what it computes.
