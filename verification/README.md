# Exact-word trie index over article titles

This project models the character trie of `servier/process.py` and proves its
properties. The trie indexes the words of scientific-article titles. Each word
maps to the set of `(journal, date)` pairs of the articles whose title
contains that word. The trie shares common prefixes between words, but a
lookup matches exact words only.

The project has three model modules and one module of client scenarios:

- `Words` (`words.dfy`) models `str.split()` with no separator, as the
  builder applies it to a title. Runs of the characters for which Python's
  `str.isspace()` holds separate the words, and no empty word is produced.
- `Tries` (`tries.dfy`) models `TrieNode` and `Trie`. The nodes are kept in
  an arena: `Trie.nodes` is a sequence of `TrieNode` values. Index 0 is the
  root, and a node's `children` map a character to a child's index.
  `Insert` and `Query` are methods with the source's loops.
  - The ghost field `contents` is the meaning of the trie: a finite map from
    every inserted word to its publications.
  - The ghost field `paths` records the string each node stands for.
  - `Valid()` ties both ghost fields to the arena.
- `Injection` (`injection.dfy`) models `inject_articles`. A nested loop
  inserts every word of every title into one shared `Trie`. `BuildIndex` is
  the index this loop builds, stated as a pure function. Lemmas relate it to
  `Occurrences`, a definition that does not depend on insertion order: the
  publications of the articles whose title contains the word.

`Scenarios` (`scenarios.dfy`) holds two client methods that use only the
contracts:

- One word inserted with two dates answers both dates. A prefix of the word
  answers nothing, and so does the same word with a different capital.
  Inserting the same entry again changes nothing.
- Two articles that share a word are indexed together, and each answers for
  its own words.

The model departs from the code in two places:

- `query` returns `list(node.publications)`. The model returns the set
  itself, because the order of that list is arbitrary.
- Each article record is a tuple that the source unpacks into journal, title
  and date. With a typed `Article` record, the unpacking error for a record
  of the wrong shape cannot occur.

## Model

| member | source | states |
|---|---|---|
| `Words.Split` | servier/process.py:97 | Every word that `title.split()` yields is non-empty and contains no whitespace. |
| `Words.SplitJoin` | servier/process.py:97 | Joining non-empty, whitespace-free words with single spaces and splitting the result gives the same words back. |
| `Words.SplitSkipsSpace` | servier/process.py:97 | Leading whitespace, of any length, yields no word: the split of `sp + b` is the split of `b` when `sp` is all whitespace. |
| `Words.SplitAtSpaceRun` | servier/process.py:97 | A word breaks at the first whitespace character, and a whole run of whitespace after it separates it from the rest: `split(a + sp + b)` is `[a]` followed by `split(b)`. |
| `Words.SplitKeepsCharacters` | servier/process.py:97 | The words of a title, concatenated, are exactly its non-whitespace characters in order. |
| `Tries.NewNode` | servier/process.py:20-34 | A new `TrieNode` holds the given character, is not an end node, has no publications and no children, and a trie made of it alone answers no word. |
| `Tries.Walk` | servier/process.py:54-56 | Definition of the descent from the root along the characters of a word, one child per character, failing where a child is missing (also process.py:78-83). Its properties are `WalkSpells` and `WalkFailsOnExtension`. |
| `Tries.Found` | servier/process.py:84-87 | Definition of the answer of the nodes for a word: the landing node's publications when it is an end node, none otherwise. `Query`'s ensures states that it returns it. |
| `Tries.Grow` | servier/process.py:60-61 | Definition of the nodes after a new child for `c` is created and linked under node `n`. Its properties are `GrowWalk`, `GrowWellFormed` and `GrowKeepsAnswers`. |
| `Tries.Mark` | servier/process.py:65-66 | Definition of the nodes after node `n` is marked as an end node and gains a publication. Its properties are `MarkWellFormed` and `MarkAnswers`. |
| `Tries.Added` | servier/process.py:64-66 | Recording publication `p` for word `w` adds `p` to `w`'s set, changes no other word, adds only `w` as a key, and creates no empty entry. |
| `Tries.AddedIdempotent` | servier/process.py:64-66 | Inserting the same word with the same publication twice gives the same index as inserting it once, because publications form a set. |
| `Tries.AddedCommute` | servier/process.py:47-66 | Two insertions give the same index in either order. |
| `Tries.WalkSpells` | servier/process.py:52-62 | In a well-formed trie, walking the characters of `x` from the root lands, if anywhere, on the node that stands for `x`. So distinct words never share a node. |
| `Tries.WalkFailsOnExtension` | servier/process.py:77-83 | If a character of `x` has no child on the walk, the walk along the whole of `x` fails. |
| `Tries.GrowWalk` | servier/process.py:57-62 | After a missing child is created under the node of prefix `p`, the walk along `p + [c]` lands on the new node, and every other walk is unchanged. |
| `Tries.GrowWellFormed` | servier/process.py:58-62 | Creating a child keeps the trie well formed. The new node holds `[c]` and stands for `p + [c]`, and every node is still an end node exactly when it has publications. |
| `Tries.GrowKeepsAnswers` | servier/process.py:58-62 | Creating a child changes the answer for no word, so a strict prefix stays a non-word. |
| `Tries.MarkWellFormed` | servier/process.py:64-66 | Setting `is_end` together with adding a publication keeps the invariant that a node is an end node exactly when its publication set is non-empty. |
| `Tries.MarkAnswers` | servier/process.py:64-66 | Marking the node of `w` adds the publication to the answer for `w` and changes the answer for no other word. |
| `Tries.Trie.constructor` | servier/process.py:40-45 | A new trie holds only the root node, which holds no character. Its contents are empty. |
| `Tries.Trie.Insert` | servier/process.py:47-66 | Keeps the trie valid. The new contents are the old contents with `(journal, date)` added for `word`, and nothing else changes. |
| `Tries.Trie.AddChild` | servier/process.py:57-62 | Appends a new child node for `c` and returns its index. The walk along the prefix plus `c` reaches it, and no answer changes. |
| `Tries.Trie.MarkEnd` | servier/process.py:64-66 | Marks the node of `word` as an end node and adds the publication there. The contents gain that publication for `word`. |
| `Tries.Trie.Query` | servier/process.py:69-87 | Returns the contents' set for `x`. The result is empty if a character has no child on the walk. It is empty if the landing node is not an end node, even for a prefix of an inserted word. Otherwise it is the landing node's publications. In one clause: the result is `Found` of the nodes. The method modifies nothing. |
| `Injection.PublicationOf` | servier/process.py:49 | Definition of the `(journal, date)` pair an article contributes to every word of its title. |
| `Injection.AddAll` | servier/process.py:97-98 | Definition of the index after the inner loop records one publication for each word of a title, in order. Its property is `AddAllLookup`. |
| `Injection.BuildIndex` | servier/process.py:95-99 | Definition of the index the nested loop builds, article by article. Its properties are `BuildIndexSound`, `BuildIndexVocabulary` and `BuildIndexOrderIndependent`. |
| `Injection.AddAllLookup` | servier/process.py:97-98 | Inserting each word of a title with one publication adds that publication to exactly those words. |
| `Injection.BuildIndexSound` | servier/process.py:95-99 | After the build, each word maps to the publications of exactly the articles whose title splits to contain it. No word maps to an empty set. |
| `Injection.BuildIndexVocabulary` | servier/process.py:95-99 | The words of the built index are exactly the words of all the titles. |
| `Injection.BuildIndexOrderIndependent` | servier/process.py:96-98 | Any permutation of the articles builds the same index. |
| `Injection.InjectArticles` | servier/process.py:90-99 | Returns a fresh, valid trie. Its contents are the built index, so every query answers the publications of the articles whose title contains the word. |

## Left out

- Node objects and aliasing: the nodes are values in an arena, not heap objects. The model does not capture object identity or aliasing of a node's `children` dictionary. Nothing in the source shares a node between two parents.
- `TrieNode.char` is stored (`ch`) but never read by the source, so no property concerns it beyond what the well-formedness invariant states.
- The order of `query`'s result list: it is modelled as a set (see above).
- The imports of `Counter`, `glob`, `pandas`, `Union` and `save_csv` are left out: no modelled code uses them. `servier/utilities.py` is not part of this model.
- The signature line of `inject_articles` (process.py:90) names `numpy`, which is never imported, and has an unbalanced parenthesis. The model takes the input as a sequence of `Article(journal, title, date)` records.
- The unpacking error for an article record without exactly three fields cannot occur with typed records.
- `Words.Split` follows Python's `str.isspace()` for the whitespace set. It does not model anything else about Python strings, such as their byte or surrogate representation.
