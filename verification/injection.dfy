/**
 * Building the index of servier/process.py (`inject_articles`): every
 * whitespace-separated word of every article title is inserted into one
 * trie together with that article's journal and date.
 */
module Injection {
  import opened Words
  import opened Tries

  /** One input record: the journal, the title and the date of an article. */
  datatype Article = Article(journal: string, title: string, date: string)

  /** The document reference an article contributes. */
  function PublicationOf(a: Article): Publication
  {
    (a.journal, a.date)
  }

  /** The publications of the articles whose title has `w` among its words. */
  function Occurrences(articles: seq<Article>, w: string): set<Publication>
  {
    set a | a in articles && w in Split(a.title) :: PublicationOf(a)
  }

  /** Every word of every title. */
  function Vocabulary(articles: seq<Article>): set<string>
  {
    set a, w | a in articles && w in Split(a.title) :: w
  }

  /** The index `m` after recording `p` for each word of `ws`, in order. */
  function AddAll(m: map<string, set<Publication>>, ws: seq<string>, p: Publication): map<string, set<Publication>>
    decreases |ws|
  {
    if ws == [] then m else Added(AddAll(m, ws[..|ws| - 1], p), ws[|ws| - 1], p)
  }

  /** Recording the words `ws` adds `p` to exactly those words and keeps
      the index free of empty entries. */
  lemma {:induction false} AddAllLookup(m: map<string, set<Publication>>, ws: seq<string>, p: Publication)
    ensures forall x :: Lookup(AddAll(m, ws, p), x) == Lookup(m, x) + (if x in ws then {p} else {})
    ensures NoEmptyEntry(m) ==> NoEmptyEntry(AddAll(m, ws, p))
    decreases |ws|
  {
    if ws != [] {
      var init := ws[..|ws| - 1];
      AddAllLookup(m, init, p);
      assert ws == init + [ws[|ws| - 1]];
      assert forall x :: x in ws <==> x in init || x == ws[|ws| - 1];
    }
  }

  /** Recording one more word of `ws` after the first `j`. */
  lemma AddAllStep(m: map<string, set<Publication>>, ws: seq<string>, j: nat, p: Publication)
    requires j < |ws|
    ensures AddAll(m, ws[..j + 1], p) == Added(AddAll(m, ws[..j], p), ws[j], p)
  {
    assert ws[..j + 1][..j] == ws[..j];
  }

  lemma OccurrencesStep(articles: seq<Article>, a: Article, w: string)
    ensures Occurrences(articles + [a], w)
         == Occurrences(articles, w) + (if w in Split(a.title) then {PublicationOf(a)} else {})
  {
    var all := articles + [a];
    assert forall b :: b in all <==> b in articles || b == a;
  }

  /** The index the articles build, article by article and word by word. */
  function BuildIndex(articles: seq<Article>): map<string, set<Publication>>
    decreases |articles|
  {
    if articles == [] then map[]
    else
      var a := articles[|articles| - 1];
      AddAll(BuildIndex(articles[..|articles| - 1]), Split(a.title), PublicationOf(a))
  }

  /**
   * Soundness and completeness of the built index: each word maps to the
   * publications of exactly the articles whose title contains it, and no
   * word maps to an empty set.
   */
  lemma {:induction false} BuildIndexSound(articles: seq<Article>)
    ensures NoEmptyEntry(BuildIndex(articles))
    ensures forall w :: Lookup(BuildIndex(articles), w) == Occurrences(articles, w)
    decreases |articles|
  {
    if articles != [] {
      var init, a := articles[..|articles| - 1], articles[|articles| - 1];
      BuildIndexSound(init);
      AddAllLookup(BuildIndex(init), Split(a.title), PublicationOf(a));
      assert articles == init + [a];
      forall w
        ensures Lookup(BuildIndex(articles), w) == Occurrences(articles, w)
      {
        OccurrencesStep(init, a, w);
      }
    }
  }

  /** Building over one more article adds that article's words. */
  lemma BuildIndexStep(articles: seq<Article>, i: nat)
    requires i < |articles|
    ensures BuildIndex(articles[..i + 1])
         == AddAll(BuildIndex(articles[..i]), Split(articles[i].title), PublicationOf(articles[i]))
  {
    assert articles[..i + 1][..i] == articles[..i];
  }

  /** The words of the built index are exactly the words of the titles. */
  lemma BuildIndexVocabulary(articles: seq<Article>)
    ensures BuildIndex(articles).Keys == Vocabulary(articles)
  {
    var r := BuildIndex(articles);
    BuildIndexSound(articles);
    forall w
      ensures w in r <==> w in Vocabulary(articles)
    {
      assert Lookup(r, w) == Occurrences(articles, w);
      if w in Vocabulary(articles) {
        var a :| a in articles && w in Split(a.title);
        assert PublicationOf(a) in Occurrences(articles, w);
      }
    }
  }

  /** The built index does not depend on the order of the articles. */
  lemma BuildIndexOrderIndependent(articles1: seq<Article>, articles2: seq<Article>)
    requires multiset(articles1) == multiset(articles2)
    ensures BuildIndex(articles1) == BuildIndex(articles2)
  {
    forall a
      ensures a in articles1 <==> a in articles2
    {
      assert a in articles1 <==> a in multiset(articles1);
      assert a in articles2 <==> a in multiset(articles2);
    }
    BuildIndexSound(articles1);
    BuildIndexSound(articles2);
    forall w
      ensures Lookup(BuildIndex(articles1), w) == Lookup(BuildIndex(articles2), w)
    {
      assert Occurrences(articles1, w) == Occurrences(articles2, w);
    }
    SameAnswersSameIndex(BuildIndex(articles1), BuildIndex(articles2));
  }

  /** Builds one trie holding every word of every title with its article's
      publication; what it holds is `BuildIndex(articles)`. */
  method InjectArticles(articles: seq<Article>) returns (trie: Trie)
    ensures fresh(trie)
    ensures trie.Valid()
    ensures trie.contents == BuildIndex(articles)
    ensures forall w :: Lookup(trie.contents, w) == Occurrences(articles, w)
  {
    trie := new Trie();
    var i := 0;
    while i < |articles|
      invariant 0 <= i <= |articles|
      invariant fresh(trie) && trie.Valid()
      invariant trie.contents == BuildIndex(articles[..i])
    {
      var a := articles[i];
      var words := Split(a.title);
      var j := 0;
      while j < |words|
        invariant 0 <= j <= |words|
        invariant fresh(trie) && trie.Valid()
        invariant trie.contents == AddAll(BuildIndex(articles[..i]), words[..j], PublicationOf(a))
      {
        AddAllStep(BuildIndex(articles[..i]), words, j, PublicationOf(a));
        trie.Insert(words[j], a.journal, a.date);
        j := j + 1;
      }
      assert words[..j] == words;
      BuildIndexStep(articles, i);
      i := i + 1;
    }
    assert articles[..i] == articles;
    BuildIndexSound(articles);
  }
}
