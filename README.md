# Authors, magazines and articles — a verified model

This project models a small in-memory object graph: **authors** write
**articles** for **magazines**. An article links one author to one magazine and
carries a title. Every article ever constructed is appended to one registry
of articles. That registry is the only relationship index. Every
"articles of this author / magazine" query is a scan of it by object identity.

Files:

- `many_to_many.dfy`, module `ManyToMany`: the classes `Registry` (the
  Python class attribute `Article.all`), `Article`, `Author` and `Magazine`,
  their validated setters and their queries.
- `seqs.dfy`, module `Seqs`: properties of sequences used to state the
  queries. These are duplicate-freedom, order-preserving subsequences,
  first-appearance de-duplication and the "at least twice" filter.
  De-duplication in first-appearance order is the key order of an
  insertion-ordered dictionary.
- `properties.dfy`, module `Properties`: lemmas that relate several
  operations. They cover registry growth, both ends of the relationship, and
  the contributing-author threshold on small registries.
- `scenarios.dfy`, module `Scenarios`: client methods that build objects and
  check, from the contracts alone, what a caller can conclude.
- `wrappers.dfy`, module `Wrappers`: the `Option` type.

How the Python maps to Dafny:

- A Python attribute that may be missing (`_title`, `_author`, `_magazine`,
  `_name`, `_category`) is an `Option` field. `None` means "never assigned",
  which is what `hasattr` tests.
- An argument that is "not an instance of `Author`/`Magazine`" is `null`. An
  argument that is "not a `str`" is `None`.
- Every validation failure in the source only *builds* an exception object and
  never raises it. The code's behaviour is therefore "a rejected assignment
  leaves the field as it was", and every setter's contract says exactly that.
  The docstrings and exception messages suggest the authors meant to raise.
  The model follows the code.
- Write-once fields: `Article.title` and `Author.name`. Reassignable fields,
  re-validated on each assignment: `Article.author`, `Article.magazine`,
  `Magazine.name` and `Magazine.category`.
- `Article.__init__` runs its three setters and then appends the article to
  the registry, whether or not the setters accepted their values.
- Queries are functions over the registry's `seq<Article>`. Python compares
  with `==`. None of the classes defines `__eq__`, so that comparison is
  identity, and the model compares references.
- `list({...})` results (`magazines`, `contributors`, `topic_areas`) have a
  hash-dependent order. They are modelled as sets. `article_titles`,
  `topic_areas` and `contributing_authors` return `None` instead of an empty
  list, modelled as `Option`.
- `contributing_authors` counts in an insertion-ordered dictionary (a `map`
  plus the sequence of keys in insertion order) and then walks the keys. Its
  two loops are the helper methods `CountAuthors` and `KeepFrequent`. They are
  proved against `Frequent`. `Frequent` keeps, from the authors in
  first-appearance order, those counted at least twice.
- Python's `len` counts code points. Dafny 4 characters are Unicode scalar
  values, so the length bounds (title 5–50, magazine name 2–16, non-empty
  author name and category) mean the same thing. A Python `str` may also
  hold lone surrogates (U+D800 to U+DFFF). Dafny characters cannot, so
  such strings have no counterpart in the model.

## Model

| member | source | states |
|---|---|---|
| `ManyToMany.Registry.constructor` | lib/classes/many_to_many.py:3 | the registry starts empty and without repeated entries |
| `ManyToMany.Article.constructor` | lib/classes/many_to_many.py:5-10 | appends exactly the new article to the end of the registry, keeping earlier entries, whatever the setters decided. It keeps the registry free of repeated entries. The three fields are what the setters accept from an unset start |
| `ManyToMany.Article.SetTitle` | lib/classes/many_to_many.py:17-29 | a title that is already set never changes. An unset title becomes the value exactly when it is a string of 5 to 50 characters, and otherwise stays unset. Nothing else changes |
| `ManyToMany.Article.SetAuthor` | lib/classes/many_to_many.py:36-42 | the author becomes the argument exactly when it is an `Author` instance, and is otherwise left as it was (set or unset). A later valid assignment replaces it |
| `ManyToMany.Article.SetMagazine` | lib/classes/many_to_many.py:49-55 | the same for the magazine and `Magazine` instances |
| `ManyToMany.Author.constructor` | lib/classes/many_to_many.py:61-63 | the name is set exactly when it is a non-empty string, and is otherwise unset |
| `ManyToMany.Author.SetName` | lib/classes/many_to_many.py:70-82 | a set name never changes. An unset name becomes the value exactly when it is a non-empty string |
| `ManyToMany.Author.Articles` | lib/classes/many_to_many.py:84-86 | the result is an order-preserving subsequence of the registry, and holds exactly the registry entries whose author is this object |
| `ManyToMany.Author.Magazines` | lib/classes/many_to_many.py:88-90 | a magazine is in the result exactly when some registry entry links this author to it. The result is empty exactly when the author has no articles |
| `ManyToMany.Author.AddArticle` | lib/classes/many_to_many.py:92-94 | returns a fresh article by this author, appended as the only new registry entry. Its magazine and title are whatever the article's setters accept |
| `ManyToMany.Author.TopicAreas` | lib/classes/many_to_many.py:96-98 | `None` exactly when the author has no magazines. Otherwise the result holds exactly the categories of the author's magazines |
| `ManyToMany.Magazine.constructor` | lib/classes/many_to_many.py:104-107 | name and category are each set exactly when valid (2 to 16 characters; non-empty), and are otherwise unset |
| `ManyToMany.Magazine.SetName` | lib/classes/many_to_many.py:114-123 | the name is replaced exactly by a string of 2 to 16 characters, and otherwise kept. It is reassignable |
| `ManyToMany.Magazine.SetCategory` | lib/classes/many_to_many.py:130-139 | the category is replaced exactly by a non-empty string, and otherwise kept. It is reassignable |
| `ManyToMany.Magazine.Articles` | lib/classes/many_to_many.py:141-143 | the result is an order-preserving subsequence of the registry, and holds exactly the entries whose magazine is this object |
| `ManyToMany.Magazine.Contributors` | lib/classes/many_to_many.py:145-147 | an author is in the result exactly when some registry entry links them to this magazine. The result is empty exactly when the magazine has no articles |
| `ManyToMany.Magazine.ArticleTitles` | lib/classes/many_to_many.py:149-152 | `None` exactly when the magazine has no articles. Otherwise the result has one title per article, in the order of `Articles` |
| `ManyToMany.Magazine.ContributingAuthors` | lib/classes/many_to_many.py:154-169 | the result is `Frequent` wrapped in `Some`, or `None` when that is empty. `None` exactly when no contributor has two articles here. Otherwise it is duplicate-free and holds exactly the contributors with at least two articles in this magazine |
| `ManyToMany.Magazine.CountAuthors` | lib/classes/many_to_many.py:159-163 | after the loop the dictionary maps each author of the articles to the number of articles they wrote. Its keys are those authors in first-appearance order |
| `ManyToMany.Magazine.KeepFrequent` | lib/classes/many_to_many.py:165-167 | the loop keeps, in key order, exactly the keys whose count is at least two |
| `ManyToMany.Magazine.AuthorsOfContributors` | lib/classes/many_to_many.py:145-147 | the authors of the magazine's articles, one per article, are exactly its contributors |
| `ManyToMany.Magazine.FrequentMeaning` | lib/classes/many_to_many.py:154-169 | `Frequent` is duplicate-free and holds exactly the contributors with at least two articles. It is empty exactly when no contributor has two |
| `Seqs.Distinct` | lib/classes/many_to_many.py:159-163 | the dictionary's key order: duplicate-free, with the same elements as the input |
| `Seqs.DistinctSubseq` | lib/classes/many_to_many.py:159-163 | the dictionary's keys form a subsequence of the authors counted |
| `Seqs.DistinctPrefix` | lib/classes/many_to_many.py:159-163 | keys never move once inserted: the keys after counting any prefix of the input are a prefix of the final keys, so the keys stand in the order of first insertion |
| `Seqs.AtLeastTwice` | lib/classes/many_to_many.py:165-167 | keeps exactly the keys occurring at least twice, in key order, without introducing duplicates |
| `Seqs.CountAgain` | lib/classes/many_to_many.py:160-161 | counting a key already present increments its count and leaves the key order unchanged |
| `Seqs.CountNew` | lib/classes/many_to_many.py:162-163 | counting a new key gives it count one and appends it to the key order |
| `Properties.AuthorArticlesAppend` | lib/classes/many_to_many.py:84-86 | after one more registration, an author's articles are the old ones plus the new article exactly when it names the author |
| `Properties.MagazineArticlesAppend` | lib/classes/many_to_many.py:141-143 | the same for a magazine's articles |
| `Properties.AuthorArticlesNoDup` | lib/classes/many_to_many.py:84-86 | over a registry without repeated entries, an author's articles are distinct |
| `Properties.MagazineArticlesNoDup` | lib/classes/many_to_many.py:141-143 | over a registry without repeated entries, a magazine's articles are distinct |
| `Properties.MagazinesContributorsAgree` | lib/classes/many_to_many.py:88-90 | a magazine is among an author's magazines exactly when the author is among the magazine's contributors |
| `Properties.TwoSingleAuthors` | lib/classes/many_to_many.py:154-169 | two articles by two different authors: no contributing author |
| `Properties.OneRepeatedAuthor` | lib/classes/many_to_many.py:154-169 | articles by A, B, A: exactly A is a contributing author |

## Left out

- The Python property getters only return the underlying attribute. The model
  reads the `Option` fields directly.
- The exception objects built and discarded by the setters have no effect, so
  they are not modelled. Raising them would change the behaviour.
- A Python read of an unset attribute raises `AttributeError`. An example is
  scanning the registry when some article's author was rejected. The model
  does not include that crash. Each query instead requires that the
  attributes it reads are set: the author or magazine of every registry entry
  it filters on, the magazine of each of the author's articles, the category
  of each of the author's magazines, and the title of each of the magazine's
  articles. The requirement covers exactly the entries that the scan reads.
- Python's dynamic typing: `isinstance` on arbitrary values becomes
  `null`/`None` arguments. Values of other types cannot be expressed.
- ManyToMany.Author.Magazines: returns a set, not a list. The list's order
  comes from hashing, so it is not modelled.
- ManyToMany.Magazine.Contributors: returns a set, for the same reason.
- ManyToMany.Author.TopicAreas: returns an optional set, for the same reason.
- `Article.all` is a class attribute shared by the whole process. The model
  makes it an explicit `Registry` object passed to the constructor and to
  `AddArticle`, and the queries take its contents. The constructor requires
  the registry's no-repeated-entries invariant, which every registration
  keeps.
- Nothing else modifies the registry. The source also never removes entries,
  but Dafny cannot forbid other code from assigning the field.
- The source has no I/O, persistence, concurrency or floating point.
