/**
 * The character trie of servier/process.py: an exact-word index from words
 * to the set of `(journal, date)` pairs of the articles that contain them.
 *
 * Nodes live in an arena, the sequence `Trie.nodes`; a node's `children`
 * map a character to the arena index of the child, and index 0 is the root.
 * The meaning of a trie is the finite map `Trie.contents` from each word
 * inserted to its publications.
 */
module Tries {

  /** A document reference: the `(journal, date)` pair of an article. */
  type Publication = (string, string)

  datatype Option<T> = None | Some(value: T)

  /** One node: the character it stands for (empty at the root), whether an
      inserted word ends here, the publications of that word, and its
      children by character. */
  datatype TrieNode = TrieNode(
    ch: string,
    isEnd: bool,
    publications: set<Publication>,
    children: map<char, nat>)

  /** A freshly made node for `ch`: not an end, no publications, no children.
      It holds `ch`, and a trie made of it alone answers no word at all. */
  function NewNode(ch: string): (node: TrieNode)
    ensures node.ch == ch
    ensures !node.isEnd && node.publications == {} && node.children == map[]
    ensures forall x :: Found([node], x) == {}
  {
    TrieNode(ch, false, {}, map[])
  }

  const RootIndex: nat := 0

  // ---------------------------------------------------------------------
  // The abstract index: a finite map from words to publications.

  /** The publications the index `m` holds for `w`; none when `w` is absent. */
  function Lookup(m: map<string, set<Publication>>, w: string): set<Publication>
  {
    if w in m then m[w] else {}
  }

  /** No word of the index is mapped to an empty set of publications. */
  predicate NoEmptyEntry(m: map<string, set<Publication>>)
  {
    forall w :: w in m ==> m[w] != {}
  }

  /** The index `m` after recording publication `p` for word `w`. */
  function Added(m: map<string, set<Publication>>, w: string, p: Publication): (r: map<string, set<Publication>>)
    ensures Lookup(r, w) == Lookup(m, w) + {p}
    ensures forall x :: x != w ==> Lookup(r, x) == Lookup(m, x)
    ensures r.Keys == m.Keys + {w}
    ensures NoEmptyEntry(m) ==> NoEmptyEntry(r)
  {
    m[w := Lookup(m, w) + {p}]
  }

  /** Recording the same publication for the same word twice is the same as
      recording it once: publications form a set. */
  lemma AddedIdempotent(m: map<string, set<Publication>>, w: string, p: Publication)
    ensures Added(Added(m, w, p), w, p) == Added(m, w, p)
  {
    var once := Added(m, w, p);
    assert Lookup(once, w) + {p} == Lookup(once, w);
  }

  /** The order of two insertions does not matter. */
  lemma AddedCommute(m: map<string, set<Publication>>, w1: string, p1: Publication, w2: string, p2: Publication)
    ensures Added(Added(m, w1, p1), w2, p2) == Added(Added(m, w2, p2), w1, p1)
  {
    var a, b := Added(Added(m, w1, p1), w2, p2), Added(Added(m, w2, p2), w1, p1);
    assert a.Keys == b.Keys;
    forall x | x in a
      ensures a[x] == b[x]
    {
      assert a[x] == Lookup(a, x) && b[x] == Lookup(b, x);
    }
  }

  /** Two indexes without empty entries that answer every word alike are
      equal. */
  lemma SameAnswersSameIndex(m1: map<string, set<Publication>>, m2: map<string, set<Publication>>)
    requires NoEmptyEntry(m1) && NoEmptyEntry(m2)
    requires forall w :: Lookup(m1, w) == Lookup(m2, w)
    ensures m1 == m2
  {
    assert m1.Keys == m2.Keys by {
      forall w
        ensures w in m1 <==> w in m2
      {
        assert Lookup(m1, w) == Lookup(m2, w);
      }
    }
    forall w | w in m1
      ensures m1[w] == m2[w]
    {
      assert Lookup(m1, w) == Lookup(m2, w);
    }
  }

  // ---------------------------------------------------------------------
  // The arena and the walk along the characters of a word.

  /** The node index reached from the root by following the characters of
      `x` one by one, or None when some character has no child on the way. */
  function Walk(nodes: seq<TrieNode>, x: string): Option<nat>
    decreases |x|
  {
    if x == [] then Some(RootIndex)
    else
      match Walk(nodes, x[..|x| - 1])
      case None => None
      case Some(n) =>
        var c := x[|x| - 1];
        if n < |nodes| && c in nodes[n].children then Some(nodes[n].children[c]) else None
  }

  /** The node the walk along `x` lands on, if any. */
  function Landing(nodes: seq<TrieNode>, x: string): Option<TrieNode>
  {
    match Walk(nodes, x)
    case None => None
    case Some(n) => if n < |nodes| then Some(nodes[n]) else None
  }

  /** The publications the arena answers for `x`: those of the landing
      node when it ends a word, and none otherwise. */
  function Found(nodes: seq<TrieNode>, x: string): set<Publication>
  {
    match Landing(nodes, x)
    case None => {}
    case Some(node) => if node.isEnd then node.publications else {}
  }

  /**
   * The shape of a trie. `paths[n]` is the string node `n` stands for: the
   * root stands for the empty string and holds no character, the child of
   * `n` for `c` stands for `paths[n] + [c]` and holds `[c]`; a node ends a
   * word exactly when it holds publications.
   */
  ghost predicate WellFormed(nodes: seq<TrieNode>, paths: seq<string>)
  {
    && |nodes| > 0
    && |paths| == |nodes|
    && nodes[RootIndex].ch == []
    && paths[RootIndex] == []
    && (forall n, c :: 0 <= n < |nodes| && c in nodes[n].children ==>
          nodes[n].children[c] < |nodes|
          && paths[nodes[n].children[c]] == paths[n] + [c]
          && nodes[nodes[n].children[c]].ch == [c])
    && (forall n :: 0 <= n < |nodes| ==> (nodes[n].isEnd <==> nodes[n].publications != {}))
  }

  /** In a well-formed arena the walk along `x` lands on the node standing
      for `x`; so distinct words never land on the same node. */
  lemma {:induction false} WalkSpells(nodes: seq<TrieNode>, paths: seq<string>, x: string)
    requires WellFormed(nodes, paths)
    ensures Walk(nodes, x).Some? ==> Walk(nodes, x).value < |nodes| && paths[Walk(nodes, x).value] == x
    decreases |x|
  {
    if x != [] {
      var y := x[..|x| - 1];
      WalkSpells(nodes, paths, y);
      assert y + [x[|x| - 1]] == x;
    }
  }

  /** Once the walk along a prefix of `x` has failed, so has the walk along
      `x`. */
  lemma {:induction false} WalkFailsOnExtension(nodes: seq<TrieNode>, x: string, i: nat)
    requires i <= |x|
    requires Walk(nodes, x[..i]) == None
    ensures Walk(nodes, x) == None
    decreases |x|
  {
    if i < |x| {
      var y := x[..|x| - 1];
      assert y[..i] == x[..i];
      WalkFailsOnExtension(nodes, y, i);
    } else {
      assert x[..i] == x;
    }
  }

  /** Two arenas whose nodes have the same children walk alike. */
  lemma {:induction false} SameChildrenSameWalk(a: seq<TrieNode>, b: seq<TrieNode>, x: string)
    requires |a| == |b|
    requires forall n :: 0 <= n < |a| ==> a[n].children == b[n].children
    ensures Walk(a, x) == Walk(b, x)
    decreases |x|
  {
    if x != [] {
      SameChildrenSameWalk(a, b, x[..|x| - 1]);
    }
  }

  /** The arena after node `n` gets a new, empty child for `c`, appended at
      the end. */
  function Grow(nodes: seq<TrieNode>, n: nat, c: char): seq<TrieNode>
    requires n < |nodes|
  {
    nodes[n := nodes[n].(children := nodes[n].children[c := |nodes|])] + [NewNode([c])]
  }

  /** Growing a child for `c` under the node of `p` makes the walk along
      `p + [c]` land on the new node and changes no other walk. */
  lemma {:induction false} GrowWalk(nodes: seq<TrieNode>, paths: seq<string>, p: string, n: nat, c: char, x: string)
    requires WellFormed(nodes, paths)
    requires Walk(nodes, p) == Some(n) && n < |nodes|
    requires c !in nodes[n].children
    ensures Walk(Grow(nodes, n, c), x) == if x == p + [c] then Some(|nodes|) else Walk(nodes, x)
    decreases |x|
  {
    var grown := Grow(nodes, n, c);
    if x != [] {
      var y, d := x[..|x| - 1], x[|x| - 1];
      assert x == y + [d];
      assert x == p + [c] ==> y == p;
      GrowWalk(nodes, paths, p, n, c, y);
      if y == p + [c] {
        assert y[..|y| - 1] == p;
        assert Walk(nodes, y) == None;
        assert grown[|nodes|].children == map[];
      } else {
        match Walk(nodes, y)
        case None =>
        case Some(m) =>
          WalkSpells(nodes, paths, y);
          WalkSpells(nodes, paths, p);
          if m == n {
            assert y == p;
            assert grown[n].children == nodes[n].children[c := |nodes|];
          } else {
            assert grown[m].children == nodes[m].children;
            assert y != p;
          }
      }
    }
  }

  /** Growing a child for `c` under the node of `p` keeps the arena well
      formed, the new node standing for `p + [c]`. */
  lemma GrowWellFormed(nodes: seq<TrieNode>, paths: seq<string>, p: string, n: nat, c: char)
    requires WellFormed(nodes, paths)
    requires Walk(nodes, p) == Some(n) && n < |nodes|
    requires c !in nodes[n].children
    ensures WellFormed(Grow(nodes, n, c), paths + [p + [c]])
  {
    var grown, paths' := Grow(nodes, n, c), paths + [p + [c]];
    WalkSpells(nodes, paths, p);
    forall m, d | 0 <= m < |grown| && d in grown[m].children
      ensures grown[m].children[d] < |grown|
      ensures paths'[grown[m].children[d]] == paths'[m] + [d]
      ensures grown[grown[m].children[d]].ch == [d]
    {
      if m == n && d == c {
        assert grown[m].children[d] == |nodes|;
      } else {
        assert m < |nodes| && d in nodes[m].children;
        assert grown[m].children[d] == nodes[m].children[d];
      }
    }
  }

  /** Growing a child leaves every answer unchanged: the new node ends no
      word. */
  lemma GrowKeepsAnswers(nodes: seq<TrieNode>, paths: seq<string>, p: string, n: nat, c: char)
    requires WellFormed(nodes, paths)
    requires Walk(nodes, p) == Some(n) && n < |nodes|
    requires c !in nodes[n].children
    ensures forall x :: Found(Grow(nodes, n, c), x) == Found(nodes, x)
  {
    var grown := Grow(nodes, n, c);
    forall x
      ensures Found(grown, x) == Found(nodes, x)
    {
      GrowWalk(nodes, paths, p, n, c, x);
      if x == p + [c] {
        assert x[..|x| - 1] == p;
        assert Walk(nodes, x) == None;
        assert grown[|nodes|] == NewNode([c]);
      } else {
        WalkSpells(nodes, paths, x);
        if Walk(nodes, x).Some? {
          var m := Walk(nodes, x).value;
          assert grown[m].isEnd == nodes[m].isEnd;
          assert grown[m].publications == nodes[m].publications;
        }
      }
    }
  }

  /** The arena after node `n` records publication `pub` as the end of a word. */
  function Mark(nodes: seq<TrieNode>, n: nat, pub: Publication): seq<TrieNode>
    requires n < |nodes|
  {
    nodes[n := nodes[n].(isEnd := true, publications := nodes[n].publications + {pub})]
  }

  /** Marking a node as the end of a word keeps the arena well formed: the
      node then ends a word and holds a publication. */
  lemma MarkWellFormed(nodes: seq<TrieNode>, paths: seq<string>, n: nat, pub: Publication)
    requires WellFormed(nodes, paths)
    requires n < |nodes|
    ensures WellFormed(Mark(nodes, n, pub), paths)
  {
    var marked := Mark(nodes, n, pub);
    forall m, c | 0 <= m < |marked| && c in marked[m].children
      ensures marked[m].children[c] < |marked|
      ensures paths[marked[m].children[c]] == paths[m] + [c]
      ensures marked[marked[m].children[c]].ch == [c]
    {
      assert marked[m].children == nodes[m].children;
      assert marked[marked[m].children[c]].ch == nodes[nodes[m].children[c]].ch;
    }
  }

  /** Marking the node of `w` adds `pub` to the answer for `w` and changes
      the answer for no other word. */
  lemma MarkAnswers(nodes: seq<TrieNode>, paths: seq<string>, w: string, n: nat, pub: Publication)
    requires WellFormed(nodes, paths)
    requires Walk(nodes, w) == Some(n) && n < |nodes|
    ensures Found(Mark(nodes, n, pub), w) == Found(nodes, w) + {pub}
    ensures forall x :: x != w ==> Found(Mark(nodes, n, pub), x) == Found(nodes, x)
  {
    var marked := Mark(nodes, n, pub);
    WalkSpells(nodes, paths, w);
    SameChildrenSameWalk(marked, nodes, w);
    forall x | x != w
      ensures Found(marked, x) == Found(nodes, x)
    {
      SameChildrenSameWalk(marked, nodes, x);
      WalkSpells(nodes, paths, x);
    }
  }

  // ---------------------------------------------------------------------
  // The trie object.

  class Trie {
    /** The node arena; `nodes[RootIndex]` is the root. */
    var nodes: seq<TrieNode>
    /** The string each node stands for. */
    ghost var paths: seq<string>
    /** Every word inserted so far, with its publications. */
    ghost var contents: map<string, set<Publication>>

    ghost predicate Valid()
      reads this
    {
      && WellFormed(nodes, paths)
      && NoEmptyEntry(contents)
      && (forall x :: Found(nodes, x) == Lookup(contents, x))
    }

    /** A trie holding only the root, which holds no character. */
    constructor ()
      ensures Valid()
      ensures contents == map[]
      ensures nodes == [NewNode([])]
    {
      nodes := [NewNode([])];
      paths := [[]];
      contents := map[];
      new;
      forall x
        ensures Found(nodes, x) == {}
      {
        WalkSpells(nodes, paths, x);
      }
    }

    /** Inserts `word` with the publication `(journal, date)`: walks the
        characters from the root, creating each missing child, then marks
        the last node as an end and adds the publication to it. */
    method Insert(word: string, journal: string, date: string)
      requires Valid()
      modifies this
      ensures Valid()
      ensures contents == Added(old(contents), word, (journal, date))
    {
      var publication := (journal, date);
      var node := RootIndex;
      var i := 0;
      while i < |word|
        invariant 0 <= i <= |word|
        invariant WellFormed(nodes, paths)
        invariant Walk(nodes, word[..i]) == Some(node) && node < |nodes|
        invariant forall x :: Found(nodes, x) == Lookup(contents, x)
        invariant contents == old(contents)
      {
        var c := word[i];
        assert word[..i + 1] == word[..i] + [c];
        if c in nodes[node].children {
          node := nodes[node].children[c];
        } else {
          node := AddChild(node, c, word[..i]);
        }
        i := i + 1;
      }
      assert word[..i] == word;
      MarkEnd(node, word, publication);
    }

    /** Creates a new node for `c` as the child of `node`, which stands for
        `prefix`, and returns its index; the new node ends no word, so no
        answer changes. */
    method AddChild(node: nat, c: char, ghost prefix: string) returns (child: nat)
      requires WellFormed(nodes, paths)
      requires Walk(nodes, prefix) == Some(node) && node < |nodes|
      requires c !in nodes[node].children
      modifies this
      ensures WellFormed(nodes, paths)
      ensures nodes == Grow(old(nodes), node, c) && child == old(|nodes|)
      ensures Walk(nodes, prefix + [c]) == Some(child) && child < |nodes|
      ensures forall x :: Found(nodes, x) == Found(old(nodes), x)
      ensures contents == old(contents)
    {
      GrowWellFormed(nodes, paths, prefix, node, c);
      GrowKeepsAnswers(nodes, paths, prefix, node, c);
      GrowWalk(nodes, paths, prefix, node, c, prefix + [c]);
      child := |nodes|;
      nodes := Grow(nodes, node, c);
      paths := paths + [prefix + [c]];
    }

    /** Marks `node`, which stands for `word`, as the end of a word and adds
        `publication` to its set. */
    method MarkEnd(node: nat, ghost word: string, publication: Publication)
      requires WellFormed(nodes, paths) && NoEmptyEntry(contents)
      requires forall x :: Found(nodes, x) == Lookup(contents, x)
      requires Walk(nodes, word) == Some(node) && node < |nodes|
      modifies this
      ensures Valid()
      ensures nodes == Mark(old(nodes), node, publication)
      ensures contents == Added(old(contents), word, publication)
    {
      MarkWellFormed(nodes, paths, node, publication);
      MarkAnswers(nodes, paths, word, node, publication);
      nodes := Mark(nodes, node, publication);
      contents := Added(contents, word, publication);
    }

    /** The publications of `x` as an exact word: none when some character
        of `x` has no child on the walk, none when the walk lands on a node
        that ends no word (a mere prefix), and the landing node's set
        otherwise. Changes nothing. */
    method Query(x: string) returns (r: set<Publication>)
      requires Valid()
      ensures r == Lookup(contents, x)
      ensures r == Found(nodes, x)
      ensures Landing(nodes, x).None? ==> r == {}
      ensures Landing(nodes, x).Some? && !Landing(nodes, x).value.isEnd ==> r == {}
      ensures Landing(nodes, x).Some? && Landing(nodes, x).value.isEnd ==> r == Landing(nodes, x).value.publications
    {
      var node := RootIndex;
      var i := 0;
      while i < |x|
        invariant 0 <= i <= |x|
        invariant Walk(nodes, x[..i]) == Some(node) && node < |nodes|
      {
        var c := x[i];
        assert x[..i + 1][..i] == x[..i];
        if c !in nodes[node].children {
          WalkFailsOnExtension(nodes, x, i + 1);
          return {};
        }
        node := nodes[node].children[c];
        i := i + 1;
      }
      assert x[..i] == x;
      if nodes[node].isEnd {
        r := nodes[node].publications;
      } else {
        r := {};
      }
    }
  }
}
