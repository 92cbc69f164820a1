/** Client code that drives the model the way a caller of the library would,
    checking what the contracts let a caller conclude. */
module Scenarios {
  import opened Wrappers
  import opened Seqs
  import opened ManyToMany
  import opened Properties

  /** One author, one magazine, one article added through `AddArticle`. */
  method OneArticle() {
    var reg := new Registry();
    var ama := new Author(Some("Ama"));
    var vogue := new Magazine(Some("Vogue"), Some("Fashion"));
    var recap := ama.AddArticle(reg, vogue, Some("Fashion Week Recap"));
    assert reg.all == [recap];
    assert ama.Articles(reg.all) == [recap];
    assert vogue.Contributors(reg.all) == {ama};
  }

  /** The same single article, seen from the author's side. */
  method OneArticleMagazines() {
    var reg := new Registry();
    var ama := new Author(Some("Ama"));
    var vogue := new Magazine(Some("Vogue"), Some("Fashion"));
    var recap := ama.AddArticle(reg, vogue, Some("Fashion Week Recap"));
    assert reg.all == [recap];
    assert ama.Magazines(reg.all) == {vogue};
  }

  /** The titles and topic areas of that single article. */
  method OneArticleTitlesAndTopics() {
    var reg := new Registry();
    var ama := new Author(Some("Ama"));
    var vogue := new Magazine(Some("Vogue"), Some("Fashion"));
    var recap := ama.AddArticle(reg, vogue, Some("Fashion Week Recap"));
    assert vogue.Articles(reg.all) == [recap];
    var titles := vogue.ArticleTitles(reg.all);
    assert titles.Some? && |titles.value| == 1 && titles.value[0] == "Fashion Week Recap";
    var topics := ama.TopicAreas(reg.all);
    assert topics.Some? && "Fashion" in topics.value;
  }

  /** Write-once and reassignable attributes. */
  method Setters() {
    var reg := new Registry();
    var ama := new Author(Some("Ama"));
    var vogue := new Magazine(Some("Vogue"), Some("Fashion"));
    var recap := ama.AddArticle(reg, vogue, Some("Fashion Week Recap"));
    ama.SetName(Some("Other"));
    assert ama.name == Some("Ama");
    vogue.SetName(Some("V"));
    assert vogue.name == Some("Vogue");
    vogue.SetName(Some("Seventeen Letters"));
    assert vogue.name == Some("Vogue");
    vogue.SetName(Some("Elle"));
    assert vogue.name == Some("Elle");
    vogue.SetCategory(Some(""));
    assert vogue.category == Some("Fashion");
    recap.SetTitle(Some("A Different Title"));
    assert recap.title == Some("Fashion Week Recap");
    var kofi := new Author(Some("Kofi"));
    recap.SetAuthor(kofi);
    assert recap.author == Some(kofi);
    recap.SetAuthor(null);
    assert recap.author == Some(kofi);
  }

  /** Title lengths 5 and 50 are accepted, 4 and 51 are not; a rejected
      article is registered all the same. */
  method TitleBoundaries() {
    var reg := new Registry();
    var au := new Author(Some("Ama"));
    var m := new Magazine(Some("Vogue"), Some("Fashion"));
    var fifty := "01234567890123456789012345678901234567890123456789";
    assert |fifty| == 50;
    var a5 := new Article(reg, au, m, Some("Hello"));
    var a50 := new Article(reg, au, m, Some(fifty));
    var a4 := new Article(reg, au, m, Some("Hell"));
    var a51 := new Article(reg, au, m, Some(fifty + "!"));
    var noAuthor := new Article(reg, null, m, None);
    assert a5.title == Some("Hello") && a50.title == Some(fifty);
    assert a4.title == None && a51.title == None;
    assert noAuthor.author == None && noAuthor.title == None;
    assert reg.all == [a5, a50, a4, a51, noAuthor];
  }
}
