/** Properties relating several operations of the many-to-many model: how the
    queries grow when the registry grows, and how the two ends of the
    relationship agree with each other. */
module Properties {
  import opened Wrappers
  import opened Seqs
  import opened ManyToMany

  /** Registering one more article extends an author's `Articles` by exactly
      that article when it names the author, and leaves it unchanged otherwise. */
  lemma {:induction false} AuthorArticlesAppend(au: Author, all: seq<Article>, x: Article)
    requires AuthorsSet(all + [x])
    ensures AuthorsSet(all)
    ensures au.Articles(all + [x]) ==
            au.Articles(all) + (if x.author == Some(au) then [x] else [])
    decreases |all|
  {
    if all == [] {
      assert [x][1..] == [];
    } else {
      assert (all + [x])[1..] == all[1..] + [x];
      AuthorArticlesAppend(au, all[1..], x);
    }
  }

  /** The same for a magazine's `Articles`. */
  lemma {:induction false} MagazineArticlesAppend(m: Magazine, all: seq<Article>, x: Article)
    requires MagazinesSet(all + [x])
    ensures MagazinesSet(all)
    ensures m.Articles(all + [x]) ==
            m.Articles(all) + (if x.magazine == Some(m) then [x] else [])
    decreases |all|
  {
    if all == [] {
      assert [x][1..] == [];
    } else {
      assert (all + [x])[1..] == all[1..] + [x];
      MagazineArticlesAppend(m, all[1..], x);
    }
  }

  /** Over a registry without repeated entries, an author's articles are distinct. */
  lemma {:induction false} AuthorArticlesNoDup(au: Author, all: seq<Article>)
    requires AuthorsSet(all) && NoDup(all)
    ensures NoDup(au.Articles(all))
  {
    SubseqNoDup(au.Articles(all), all);
  }

  /** Over a registry without repeated entries, a magazine's articles are distinct. */
  lemma {:induction false} MagazineArticlesNoDup(m: Magazine, all: seq<Article>)
    requires MagazinesSet(all) && NoDup(all)
    ensures NoDup(m.Articles(all))
  {
    SubseqNoDup(m.Articles(all), all);
  }

  /** The two ends of the relationship agree: a magazine is among an author's
      magazines exactly when the author is among the magazine's contributors. */
  lemma MagazinesContributorsAgree(au: Author, m: Magazine, all: seq<Article>)
    requires AuthorsSet(all) && MagazinesSet(all)
    ensures m in au.Magazines(all) <==> au in m.Contributors(all)
  {
  }

  /** Two articles in a magazine by two different authors: nobody qualifies as a
      contributing author. */
  lemma TwoSingleAuthors(m: Magazine, all: seq<Article>, x: Article, y: Article)
    requires MagazinesSet(all) && AuthorsSet(m.Articles(all))
    requires m.Articles(all) == [x, y] && x.author != y.author
    ensures m.Frequent(all) == []
  {
    var authors := AuthorsOf([x, y]);
    assert authors == [x.author.value, y.author.value];
    AtLeastTwiceEmpty(Distinct(authors), authors);
  }

  /** Three articles, the first and last by the same author and the middle one by
      another: exactly the repeated author qualifies. */
  lemma OneRepeatedAuthor(m: Magazine, all: seq<Article>, x: Article, y: Article, z: Article)
    requires MagazinesSet(all) && AuthorsSet(m.Articles(all))
    requires m.Articles(all) == [x, y, z] && x.author == z.author && x.author != y.author
    ensures m.Frequent(all) == [x.author.value]
  {
    var a, b := x.author.value, y.author.value;
    var authors := AuthorsOf([x, y, z]);
    assert authors == [a, b, a];
    CountOneRepeated(a, b);
  }
}
