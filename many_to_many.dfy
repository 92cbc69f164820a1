/** Authors, magazines and the articles that link them (lib/classes/many_to_many.py).

    Each Python attribute that may be missing (`_title`, `_author`, `_magazine`,
    `_name`, `_category`) is an `Option` field: `None` means the attribute was
    never assigned. Every validating setter only builds an exception object and
    never raises it, so a rejected assignment leaves the field as it was.
    A setter argument that is not an instance of the expected class is `null`;
    one that is not a string is `None`. */
module ManyToMany {
  import opened Wrappers
  import opened Seqs

  /** Accepted lengths of the validated string attributes. */
  predicate IsTitle(s: string) { 5 <= |s| <= 50 }
  predicate IsAuthorName(s: string) { |s| > 0 }
  predicate IsMagazineName(s: string) { 2 <= |s| <= 16 }
  predicate IsCategory(s: string) { |s| > 0 }

  /** Every article in `all` has its `author` attribute; reading it does not fail. */
  predicate AuthorsSet(all: seq<Article>)
    reads set a | a in all
  {
    forall a :: a in all ==> a.author.Some?
  }

  /** Every article in `all` has its `magazine` attribute. */
  predicate MagazinesSet(all: seq<Article>)
    reads set a | a in all
  {
    forall a :: a in all ==> a.magazine.Some?
  }

  /** The authors of `arts`, one per article, in order. */
  function AuthorsOf(arts: seq<Article>): (r: seq<Author>)
    reads set a | a in arts
    requires AuthorsSet(arts)
    ensures |r| == |arts|
    ensures forall i :: 0 <= i < |arts| ==> arts[i].author == Some(r[i])
    decreases |arts|
  {
    if arts == [] then [] else [arts[0].author.value] + AuthorsOf(arts[1..])
  }

  /** The titles of `arts`, one per article, in order. */
  function TitlesOf(arts: seq<Article>): (r: seq<string>)
    reads set a | a in arts
    requires forall a :: a in arts ==> a.title.Some?
    ensures |r| == |arts|
    ensures forall i :: 0 <= i < |arts| ==> arts[i].title == Some(r[i])
    decreases |arts|
  {
    if arts == [] then [] else [arts[0].title.value] + TitlesOf(arts[1..])
  }

  /** The process-wide list `Article.all`, as an explicitly owned object. */
  class Registry {
    var all: seq<Article>

    /** Every entry is a distinct article object. */
    ghost predicate Valid()
      reads this
    {
      NoDup(all)
    }

    constructor ()
      ensures Valid() && all == []
    {
      all := [];
    }
  }

  class Article {
    var author: Option<Author>
    var magazine: Option<Magazine>
    var title: Option<string>

    /** Runs the three setters, then appends the new article to the registry,
        whether or not the setters accepted their values. */
    constructor (reg: Registry, newAuthor: Author?, newMagazine: Magazine?, newTitle: Option<string>)
      requires reg.Valid()
      modifies reg
      ensures reg.Valid()
      ensures reg.all == old(reg.all) + [this]
      ensures author == (if newAuthor != null then Some(newAuthor) else None)
      ensures magazine == (if newMagazine != null then Some(newMagazine) else None)
      ensures title == (if newTitle.Some? && IsTitle(newTitle.value) then newTitle else None)
    {
      author, magazine, title := None, None, None;
      new;
      SetAuthor(newAuthor);
      SetMagazine(newMagazine);
      SetTitle(newTitle);
      reg.all := reg.all + [this];
    }

    /** `title` is write-once: it is stored only while unset and only when it
        is a string of 5 to 50 characters. */
    method SetTitle(newTitle: Option<string>)
      modifies this`title
      ensures old(title).Some? ==> title == old(title)
      ensures old(title).None? ==>
                title == (if newTitle.Some? && IsTitle(newTitle.value) then newTitle else None)
    {
      if title.None? && newTitle.Some? && IsTitle(newTitle.value) {
        title := newTitle;
      }
    }

    /** `author` is replaced by any `Author` instance, and only by one. */
    method SetAuthor(newAuthor: Author?)
      modifies this`author
      ensures author == (if newAuthor != null then Some(newAuthor) else old(author))
    {
      if newAuthor != null {
        author := Some(newAuthor);
      }
    }

    /** `magazine` is replaced by any `Magazine` instance, and only by one. */
    method SetMagazine(newMagazine: Magazine?)
      modifies this`magazine
      ensures magazine == (if newMagazine != null then Some(newMagazine) else old(magazine))
    {
      if newMagazine != null {
        magazine := Some(newMagazine);
      }
    }
  }

  class Author {
    var name: Option<string>

    constructor (newName: Option<string>)
      ensures name == (if newName.Some? && IsAuthorName(newName.value) then newName else None)
    {
      name := None;
      new;
      SetName(newName);
    }

    /** `name` is write-once and accepts only a non-empty string. */
    method SetName(newName: Option<string>)
      modifies this`name
      ensures old(name).Some? ==> name == old(name)
      ensures old(name).None? ==>
                name == (if newName.Some? && IsAuthorName(newName.value) then newName else None)
    {
      if name.None? && newName.Some? && IsAuthorName(newName.value) {
        name := newName;
      }
    }

    /** The registry entries whose author is this object, in registry order. */
    function Articles(all: seq<Article>): (r: seq<Article>)
      reads all
      requires AuthorsSet(all)
      ensures Subseq(r, all)
      ensures forall a :: a in r ==> a in all && a.author == Some(this)
      ensures forall a :: a in all && a.author == Some(this) ==> a in r
      decreases |all|
    {
      if all == [] then []
      else if all[0].author == Some(this) then [all[0]] + Articles(all[1..])
      else Articles(all[1..])
    }

    /** The distinct magazines this author has written for. */
    function Magazines(all: seq<Article>): (r: set<Magazine>)
      reads all
      requires AuthorsSet(all) && MagazinesSet(Articles(all))
      ensures forall m :: m in r ==>
                exists a :: a in all && a.author == Some(this) && a.magazine == Some(m)
      ensures forall a :: a in all && a.author == Some(this) ==> a.magazine.value in r
      ensures r == {} <==> Articles(all) == []
    {
      var arts := Articles(all);
      var r := set a | a in arts :: a.magazine.value;
      assert arts != [] ==> arts[0].magazine.value in r;
      r
    }

    /** Creates an article by this author; it is registered like any other. */
    method AddArticle(reg: Registry, magazine: Magazine?, title: Option<string>) returns (a: Article)
      requires reg.Valid()
      modifies reg
      ensures reg.Valid() && fresh(a)
      ensures reg.all == old(reg.all) + [a]
      ensures a.author == Some(this)
      ensures a.magazine == (if magazine != null then Some(magazine) else None)
      ensures a.title == (if title.Some? && IsTitle(title.value) then title else None)
    {
      a := new Article(reg, this, magazine, title);
    }

    /** The distinct categories of this author's magazines; `None` when there are none. */
    function TopicAreas(all: seq<Article>): (r: Option<set<string>>)
      reads all, Magazines(all)
      requires AuthorsSet(all) && MagazinesSet(Articles(all))
      requires forall m :: m in Magazines(all) ==> m.category.Some?
      ensures r.None? <==> Magazines(all) == {}
      ensures r.Some? ==> forall c :: c in r.value ==>
                exists m :: m in Magazines(all) && m.category == Some(c)
      ensures r.Some? ==> forall m :: m in Magazines(all) ==> m.category.value in r.value
    {
      var ms := Magazines(all);
      var cats := set m | m in ms :: m.category.value;
      assert forall m :: m in ms ==> m.category.value in cats;
      if cats == {} then None
      else Some(cats)
    }
  }

  class Magazine {
    var name: Option<string>
    var category: Option<string>

    constructor (newName: Option<string>, newCategory: Option<string>)
      ensures name == (if newName.Some? && IsMagazineName(newName.value) then newName else None)
      ensures category ==
                (if newCategory.Some? && IsCategory(newCategory.value) then newCategory else None)
    {
      name, category := None, None;
      new;
      SetName(newName);
      SetCategory(newCategory);
    }

    /** `name` can be reassigned, but only to a string of 2 to 16 characters. */
    method SetName(newName: Option<string>)
      modifies this`name
      ensures name == (if newName.Some? && IsMagazineName(newName.value) then newName else old(name))
    {
      if newName.Some? && IsMagazineName(newName.value) {
        name := newName;
      }
    }

    /** `category` can be reassigned, but only to a non-empty string. */
    method SetCategory(newCategory: Option<string>)
      modifies this`category
      ensures category ==
                (if newCategory.Some? && IsCategory(newCategory.value) then newCategory else old(category))
    {
      if newCategory.Some? && IsCategory(newCategory.value) {
        category := newCategory;
      }
    }

    /** The registry entries whose magazine is this object, in registry order. */
    function Articles(all: seq<Article>): (r: seq<Article>)
      reads all
      requires MagazinesSet(all)
      ensures Subseq(r, all)
      ensures forall a :: a in r ==> a in all && a.magazine == Some(this)
      ensures forall a :: a in all && a.magazine == Some(this) ==> a in r
      decreases |all|
    {
      if all == [] then []
      else if all[0].magazine == Some(this) then [all[0]] + Articles(all[1..])
      else Articles(all[1..])
    }

    /** The distinct authors who have written for this magazine. */
    function Contributors(all: seq<Article>): (r: set<Author>)
      reads all
      requires MagazinesSet(all) && AuthorsSet(Articles(all))
      ensures forall au :: au in r ==>
                exists a :: a in all && a.magazine == Some(this) && a.author == Some(au)
      ensures forall a :: a in all && a.magazine == Some(this) ==> a.author.value in r
      ensures r == {} <==> Articles(all) == []
    {
      var arts := Articles(all);
      var r := set a | a in arts :: a.author.value;
      assert arts != [] ==> arts[0].author.value in r;
      r
    }

    /** The titles of this magazine's articles in registry order; `None` when it has none. */
    function ArticleTitles(all: seq<Article>): (r: Option<seq<string>>)
      reads all
      requires MagazinesSet(all)
      requires forall a :: a in Articles(all) ==> a.title.Some?
      ensures r.None? <==> Articles(all) == []
      ensures r.Some? ==> |r.value| == |Articles(all)|
      ensures r.Some? ==> forall i :: 0 <= i < |r.value| ==> Articles(all)[i].title == Some(r.value[i])
    {
      var titles := TitlesOf(Articles(all));
      if titles == [] then None else Some(titles)
    }

    /** The authors with at least two articles in this magazine, each once, in the
        order in which they first appear; `None` when no author qualifies.
        Counts in an insertion-ordered dictionary, then keeps the keys whose
        count is at least two. */
    method ContributingAuthors(all: seq<Article>) returns (r: Option<seq<Author>>)
      requires MagazinesSet(all) && AuthorsSet(Articles(all))
      ensures r == if Frequent(all) == [] then None else Some(Frequent(all))
      ensures r.None? <==> forall au :: au in Contributors(all) ==> ArticleCount(all, au) < 2
      ensures r.Some? ==> NoDup(r.value)
      ensures r.Some? ==> forall au :: au in r.value ==> au in Contributors(all) && ArticleCount(all, au) >= 2
      ensures r.Some? ==> forall au :: au in Contributors(all) && ArticleCount(all, au) >= 2 ==> au in r.value
    {
      var arts := Articles(all);
      ghost var authors := AuthorsOf(arts);
      var counts, keys := CountAuthors(arts);
      var listOfAuthors := KeepFrequent(counts, keys, authors);
      assert listOfAuthors == Frequent(all) by {
        assert keys == Distinct(authors);
      }
      FrequentMeaning(all);
      r := if listOfAuthors == [] then None else Some(listOfAuthors);
    }

    /** The first loop of `ContributingAuthors`: counts the articles of each
        author of `arts` in a dictionary whose keys keep their insertion order. */
    static method CountAuthors(arts: seq<Article>) returns (counts: map<Author, nat>, keys: seq<Author>)
      requires AuthorsSet(arts)
      ensures Counted(counts, keys, AuthorsOf(arts))
    {
      ghost var authors := AuthorsOf(arts);
      counts, keys := map[], [];
      ghost var seen: seq<Author> := [];  // the authors counted so far
      var i := 0;
      while i < |arts|
        invariant 0 <= i <= |arts|
        invariant |seen| == i && forall k :: 0 <= k < i ==> seen[k] == authors[k]
        invariant Counted(counts, keys, seen)
      {
        var au := arts[i].author.value;
        assert au == authors[i];
        if au in counts {
          CountAgain(counts, keys, seen, au);
          counts := counts[au := counts[au] + 1];
        } else {
          CountNew(counts, keys, seen, au);
          counts := counts[au := 1];
          keys := keys + [au];
        }
        seen := seen + [au];
        i := i + 1;
      }
      assert seen == authors;
    }

    /** The second loop of `ContributingAuthors`: walks the dictionary in key
        order and keeps the authors counted at least twice. */
    static method KeepFrequent(counts: map<Author, nat>, keys: seq<Author>, ghost authors: seq<Author>)
      returns (listOfAuthors: seq<Author>)
      requires Counted(counts, keys, authors)
      ensures listOfAuthors == AtLeastTwice(keys, authors)
    {
      listOfAuthors := [];
      ghost var scanned: seq<Author> := [];  // the keys looked at so far
      var j := 0;
      while j < |keys|
        invariant 0 <= j <= |keys|
        invariant scanned == keys[..j]
        invariant listOfAuthors == AtLeastTwice(scanned, authors)
      {
        var k := keys[j];
        assert counts[k] == multiset(authors)[k];
        AtLeastTwiceSnoc(scanned, authors, k);
        if counts[k] >= 2 {
          listOfAuthors := listOfAuthors + [k];
        }
        scanned := scanned + [k];
        j := j + 1;
      }
      assert scanned == keys;
    }

    /** How many of this magazine's articles `au` wrote. */
    function ArticleCount(all: seq<Article>, au: Author): nat
      reads all
      requires MagazinesSet(all) && AuthorsSet(Articles(all))
    {
      multiset(AuthorsOf(Articles(all)))[au]
    }

    /** The specification of `ContributingAuthors`: the authors of this magazine's
        articles in first-appearance order, keeping those counted at least twice. */
    function Frequent(all: seq<Article>): seq<Author>
      reads all
      requires MagazinesSet(all) && AuthorsSet(Articles(all))
    {
      var authors := AuthorsOf(Articles(all));
      AtLeastTwice(Distinct(authors), authors)
    }

    /** The authors of this magazine's articles are exactly its contributors. */
    lemma AuthorsOfContributors(all: seq<Article>)
      requires MagazinesSet(all) && AuthorsSet(Articles(all))
      ensures forall au :: au in AuthorsOf(Articles(all)) <==> au in Contributors(all)
    {
    }

    /** `Frequent` holds each contributor with at least two articles, once, and nothing else. */
    lemma FrequentMeaning(all: seq<Article>)
      requires MagazinesSet(all) && AuthorsSet(Articles(all))
      ensures NoDup(Frequent(all))
      ensures forall au :: au in Frequent(all) ==> au in Contributors(all) && ArticleCount(all, au) >= 2
      ensures forall au :: au in Contributors(all) && ArticleCount(all, au) >= 2 ==> au in Frequent(all)
      ensures Frequent(all) == [] <==> forall au :: au in Contributors(all) ==> ArticleCount(all, au) < 2
    {
      AuthorsOfContributors(all);
      var q := Frequent(all);
      if q != [] {
        assert q[0] in q;
      }
    }
  }
}
