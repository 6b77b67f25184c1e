/**
 * Clients of the trie that rely on the contracts alone: the behaviour the
 * index promises on small concrete inputs.
 */
module Scenarios {
  import opened Words
  import opened Tries
  import opened Injection

  /** One word inserted for two dates answers both; a prefix of it, a word
      differing only in case and a repeated insertion change nothing. */
  method RepeatedWordKeepsBothDates()
  {
    var trie := new Trie();
    trie.Insert("paracetamol", "J. Med", "2020-01-01");
    trie.Insert("paracetamol", "J. Med", "2021-06-15");
    var both := trie.Query("paracetamol");
    assert both == {("J. Med", "2020-01-01"), ("J. Med", "2021-06-15")};
    var prefix := trie.Query("paracet");
    assert prefix == {};
    var capital := trie.Query("Paracetamol");
    assert capital == {};
    trie.Insert("paracetamol", "J. Med", "2020-01-01");
    var again := trie.Query("paracetamol");
    assert again == both;
  }

  /** Two articles sharing a word: the shared word answers both, the other
      words answer their own article, and an absent word answers nothing. */
  method TwoArticlesShareAWord()
  {
    var first := Article("A", "aspirin relief", "2019");
    var second := Article("B", "aspirin study", "2020");
    TwoTitlesSplit();
    TwoArticlesOccurrences(first, second);
    var trie := InjectArticles([first, second]);
    var aspirin := trie.Query("aspirin");
    assert aspirin == {("A", "2019"), ("B", "2020")};
    var relief := trie.Query("relief");
    assert relief == {("A", "2019")};
    var unknown := trie.Query("unknown");
    assert unknown == {};
  }

  /** The words of the two titles above. */
  lemma TwoTitlesSplit()
    ensures Split("aspirin relief") == ["aspirin", "relief"]
    ensures Split("aspirin study") == ["aspirin", "study"]
  {
    assert NoSpace("aspirin") && NoSpace("relief") && NoSpace("study");
    assert "aspirin relief" == "aspirin" + " " + "relief";
    assert "aspirin study" == "aspirin" + " " + "study";
    TitleWords("aspirin relief", "aspirin", "relief");
    TitleWords("aspirin study", "aspirin", "study");
  }

  /** Where the words of the two titles above occur. */
  lemma TwoArticlesOccurrences(first: Article, second: Article)
    requires Split(first.title) == ["aspirin", "relief"] && Split(second.title) == ["aspirin", "study"]
    ensures Occurrences([first, second], "aspirin") == {PublicationOf(first), PublicationOf(second)}
    ensures Occurrences([first, second], "relief") == {PublicationOf(first)}
    ensures Occurrences([first, second], "unknown") == {}
  {
    OccurrencesOfTwo(first, second, "aspirin");
    OccurrencesOfTwo(first, second, "relief");
    OccurrencesOfTwo(first, second, "unknown");
  }

  /** Where a word occurs among two articles. */
  lemma OccurrencesOfTwo(first: Article, second: Article, w: string)
    ensures Occurrences([first, second], w)
         == (if w in Split(first.title) then {PublicationOf(first)} else {})
          + (if w in Split(second.title) then {PublicationOf(second)} else {})
  {
    assert [first, second] == [] + [first] + [second];
    OccurrencesStep([], first, w);
    OccurrencesStep([first], second, w);
  }

  /** A title made of two words separated by one space splits into them. */
  lemma TitleWords(title: string, w1: string, w2: string)
    requires w1 != [] && w2 != [] && NoSpace(w1) && NoSpace(w2)
    requires title == w1 + " " + w2
    ensures Split(title) == [w1, w2]
  {
    SplitJoin([w1, w2]);
    assert Join([w1, w2]) == w1 + " " + w2 by {
      assert [w1, w2][1..] == [w2];
    }
  }
}
