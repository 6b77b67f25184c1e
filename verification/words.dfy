/**
 * Whitespace tokenisation of article titles, as done by Python's
 * `str.split()` called without a separator: runs of whitespace separate
 * words, and leading or trailing whitespace yields no empty word.
 */
module Words {

  /** The characters for which Python's `str.isspace()` holds. */
  predicate IsSpace(c: char)
  {
    || c == ' ' || c == '\t' || c == '\n' || c == '\r'
    || c == '\U{0B}' || c == '\U{0C}'
    || '\U{1C}' <= c <= '\U{1F}'
    || c == '\U{85}' || c == '\U{A0}' || c == '\U{1680}'
    || '\U{2000}' <= c <= '\U{200A}'
    || c == '\U{2028}' || c == '\U{2029}' || c == '\U{202F}'
    || c == '\U{205F}' || c == '\U{3000}'
  }

  /** A word: no character of `w` is whitespace. */
  predicate NoSpace(w: string)
  {
    forall k :: 0 <= k < |w| ==> !IsSpace(w[k])
  }

  /** Length of the leading run of non-whitespace characters of `s`. */
  function WordLength(s: string): (n: nat)
    ensures n <= |s|
    ensures NoSpace(s[..n])
    ensures n < |s| ==> IsSpace(s[n])
  {
    if s == [] || IsSpace(s[0]) then 0
    else
      var n := 1 + WordLength(s[1..]);
      assert s[..n] == [s[0]] + s[1..][..n - 1];
      n
  }

  /** The words of `s`, in order, as `s.split()` returns them. */
  function Split(s: string): (ws: seq<string>)
    ensures forall k :: 0 <= k < |ws| ==> ws[k] != [] && NoSpace(ws[k])
    decreases |s|
  {
    if s == [] then []
    else if IsSpace(s[0]) then Split(s[1..])
    else
      var n := WordLength(s);
      [s[..n]] + Split(s[n..])
  }

  /** The words of `ws` separated by single spaces. */
  function Join(ws: seq<string>): string
  {
    if |ws| == 0 then []
    else if |ws| == 1 then ws[0]
    else ws[0] + [' '] + Join(ws[1..])
  }

  /** The non-whitespace characters of `s`, in order. */
  function Strip(s: string): string
  {
    if s == [] then []
    else if IsSpace(s[0]) then Strip(s[1..])
    else [s[0]] + Strip(s[1..])
  }

  /** The concatenation of a sequence of words. */
  function Concat(ws: seq<string>): string
  {
    if ws == [] then [] else ws[0] + Concat(ws[1..])
  }

  lemma {:induction false} WordLengthOfWord(w: string, rest: string)
    requires NoSpace(w)
    requires rest == [] || IsSpace(rest[0])
    ensures WordLength(w + rest) == |w|
  {
    if w != [] {
      assert (w + rest)[1..] == w[1..] + rest;
      WordLengthOfWord(w[1..], rest);
    }
  }

  /**
   * Splitting the space-separated join of non-empty words gives the words
   * back: `split` cuts exactly at whitespace and drops nothing else.
   */
  lemma {:induction false} SplitJoin(ws: seq<string>)
    requires forall k :: 0 <= k < |ws| ==> ws[k] != [] && NoSpace(ws[k])
    ensures Split(Join(ws)) == ws
  {
    if |ws| == 1 {
      var w := ws[0];
      WordLengthOfWord(w, []);
      assert w + [] == w;
      assert w[..|w|] == w && w[|w|..] == [];
    } else if |ws| > 1 {
      var w, j := ws[0], Join(ws[1..]);
      var s := w + [' '] + j;
      WordLengthOfWord(w, [' '] + j);
      assert s == w + ([' '] + j);
      assert s[..|w|] == w;
      assert s[|w|..] == [' '] + j;
      assert ([' '] + j)[1..] == j;
      SplitJoin(ws[1..]);
      assert Split(s) == [w] + ws[1..];
    }
  }

  /** A run of whitespace: every character of `s` is whitespace. */
  predicate AllSpace(s: string)
  {
    forall k :: 0 <= k < |s| ==> IsSpace(s[k])
  }

  /** Leading whitespace contributes no word. */
  lemma {:induction false} SplitSkipsSpace(sp: string, b: string)
    requires AllSpace(sp)
    ensures Split(sp + b) == Split(b)
    decreases |sp|
  {
    if sp != [] {
      assert (sp + b)[0] == sp[0] && (sp + b)[1..] == sp[1..] + b;
      SplitSkipsSpace(sp[1..], b);
    } else {
      assert sp + b == b;
    }
  }

  /**
   * Where words break: a word ends at the first whitespace character, and
   * the whole run of whitespace after it, however long, separates it from
   * the words of the rest.
   */
  lemma SplitAtSpaceRun(a: string, sp: string, b: string)
    requires a != [] && NoSpace(a)
    requires sp != [] && AllSpace(sp)
    ensures Split(a + sp + b) == [a] + Split(b)
  {
    var s := a + sp + b;
    assert s == a + (sp + b);
    WordLengthOfWord(a, sp + b);
    assert s[0] == a[0];
    assert s[..|a|] == a && s[|a|..] == sp + b;
    SplitSkipsSpace(sp, b);
  }

  lemma {:induction false} StripAppend(a: string, b: string)
    ensures Strip(a + b) == Strip(a) + Strip(b)
  {
    if a != [] {
      assert (a + b)[0] == a[0] && (a + b)[1..] == a[1..] + b;
      StripAppend(a[1..], b);
    } else {
      assert a + b == b;
    }
  }

  lemma {:induction false} StripOfWord(w: string)
    requires NoSpace(w)
    ensures Strip(w) == w
  {
    if w != [] {
      StripOfWord(w[1..]);
    }
  }

  /**
   * The words of `s` hold exactly its non-whitespace characters, in order:
   * splitting loses no character of a word and keeps no whitespace.
   */
  lemma {:induction false} SplitKeepsCharacters(s: string)
    ensures Concat(Split(s)) == Strip(s)
    decreases |s|
  {
    if s != [] {
      if IsSpace(s[0]) {
        SplitKeepsCharacters(s[1..]);
      } else {
        var n := WordLength(s);
        SplitKeepsCharacters(s[n..]);
        assert s == s[..n] + s[n..];
        StripAppend(s[..n], s[n..]);
        StripOfWord(s[..n]);
        assert Split(s)[1..] == Split(s[n..]);
      }
    }
  }
}
