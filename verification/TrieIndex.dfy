/**
 The trie of heap-allocated nodes. Ghost state names every node by the string that leads to it;
 the invariant then speaks about each node and its own children only, and says that the nodes
 are exactly the prefixes of the stored words.
 */
module TrieIndex {
  import Sets

  // ----- prefixes of words -----

  predicate Begins(p: string, w: string) {
    p <= w
  }

  ghost predicate OnPath(words: set<string>, p: string) {
    exists w :: w in words && Begins(p, w)
  }

  /** A node belongs to the trie of a set of words: it is the root or lies on the way to a word. */
  ghost predicate InTrie(words: set<string>, p: string) {
    p == [] || OnPath(words, p)
  }

  lemma {:induction false} Shorter(words: set<string>, p: string, k: nat)
    requires k <= |p| && InTrie(words, p)
    ensures InTrie(words, p[..k])
  {
    if p != [] {
      var w :| w in words && Begins(p, w);
      assert Begins(p[..k], w);
    }
  }

  lemma {:induction false} OneMore(word: string, i: nat)
    requires i < |word|
    ensures word[..i + 1] == word[..i] + [word[i]]
  {
  }

  lemma {:induction false} Whole(word: string)
    ensures word[..|word|] == word && word[..0] == []
  {
  }

  lemma {:induction false} SnocInjective(p: string, c: char, q: string, d: char)
    requires p + [c] == q + [d]
    ensures p == q && c == d
  {
    assert p == (p + [c])[..|p|] && q == (q + [d])[..|q|];
    assert c == (p + [c])[|p|] && d == (q + [d])[|q|];
  }

  lemma {:induction false} BeginsSnoc(r: string, p: string, c: char)
    ensures Begins(r, p + [c]) <==> Begins(r, p) || r == p + [c]
  {
    if r <= p {
      assert p <= p + [c];
    }
  }

  lemma {:induction false} InTrieAdd(words: set<string>, word: string, p: string)
    ensures InTrie(words + {word}, p) <==> InTrie(words, p) || Begins(p, word)
  {
    if p != [] && Begins(p, word) {
      assert word in words + {word};
    }
    if OnPath(words, p) {
      var w :| w in words && Begins(p, w);
      assert w in words + {word};
    }
  }

  /** A word below a node is the node's own or goes on through one of its children. */
  lemma {:induction false} OnPathSplit(words: set<string>, p: string)
    ensures OnPath(words, p) <==> p in words || exists c :: OnPath(words, p + [c])
  {
    if OnPath(words, p) {
      var w :| w in words && Begins(p, w);
      if p != w {
        assert Begins(p + [w[|p|]], w);
        assert OnPath(words, p + [w[|p|]]);
      }
    }
    if p in words {
      assert Begins(p, p);
    }
    if c :| OnPath(words, p + [c]) {
      var w :| w in words && Begins(p + [c], w);
      assert p <= p + [c];
      assert Begins(p, w);
    }
  }

  // ----- nodes -----

  class TrieNode {
    var children: map<char, TrieNode>
    var isEndOfWord: bool

    constructor ()
      ensures children == map[] && !isEndOfWord
    {
      children, isEndOfWord := map[], false;
    }
  }

  type Paths = map<string, TrieNode>
  type Children = map<string, map<char, TrieNode>>

  /** All nodes, and the node of every path. */
  datatype Layout = Layout(nodes: set<TrieNode>, paths: Paths)

  predicate Within(layout: Layout) {
    forall p :: p in layout.paths ==> layout.paths[p] in layout.nodes
  }

  ghost function Kids(layout: Layout): Children
    requires Within(layout)
    reads layout.nodes
  {
    map p | p in layout.paths :: layout.paths[p].children
  }

  /** The children of each node are the nodes whose path is one character longer; no two paths share a node. */
  ghost predicate Tree(paths: Paths, kids: Children) {
    && [] in paths && kids.Keys == paths.Keys
    && (forall p, q :: p in paths && q in paths && paths[p] == paths[q] ==> p == q)
    && (forall p: string, c: char :: p + [c] in paths ==> p in paths && c in kids[p] && kids[p][c] == paths[p + [c]])
    && (forall p, c :: p in paths && c in kids[p] ==> p + [c] in paths)
  }

  lemma {:induction false} TreeAdd(paths: Paths, kids: Children, p: string, ch: char, child: TrieNode)
    requires Tree(paths, kids) && p in paths && ch !in kids[p] && forall q :: q in paths ==> paths[q] != child
    ensures p + [ch] !in paths
    ensures Tree(paths[p + [ch] := child], kids[p := kids[p][ch := child]][p + [ch] := map[]])
  {
    var paths', kids' := paths[p + [ch] := child], kids[p := kids[p][ch := child]][p + [ch] := map[]];
    forall q: string, c: char | q + [c] in paths'
      ensures q in paths' && c in kids'[q] && kids'[q][c] == paths'[q + [c]]
    {
      if q + [c] == p + [ch] {
        SnocInjective(q, c, p, ch);
      } else {
        assert q in paths && q != p + [ch];
      }
    }
    forall q, c | q in paths' && c in kids'[q] ensures q + [c] in paths' {
      assert q in paths && (c in kids[q] || (q == p && c == ch));
    }
  }

  lemma {:induction false} TreeRemove(paths: Paths, kids: Children, p: string, ch: char)
    requires Tree(paths, kids) && p + [ch] in paths && kids[p + [ch]] == map[]
    ensures p in paths
    ensures Tree(paths - {p + [ch]}, kids[p := kids[p] - {ch}] - {p + [ch]})
  {
    var paths', kids' := paths - {p + [ch]}, kids[p := kids[p] - {ch}] - {p + [ch]};
    assert p != p + [ch];
    forall q: string, c: char | q + [c] in paths'
      ensures q in paths' && c in kids'[q] && kids'[q][c] == paths'[q + [c]]
    {
    }
    forall q, c | q in paths' && c in kids'[q] ensures q + [c] in paths' {
      if q + [c] == p + [ch] {
        SnocInjective(q, c, p, ch);
      }
    }
  }

  ghost function Ends(layout: Layout): map<string, bool>
    requires Within(layout)
    reads layout.nodes
  {
    map p | p in layout.paths :: layout.paths[p].isEndOfWord
  }

  function With(layout: Layout, q: string, child: TrieNode): Layout {
    Layout(layout.nodes + {child}, layout.paths[q := child])
  }

  lemma {:induction false} WithNode(layout: Layout, q: string, child: TrieNode)
    requires Within(layout)
    ensures Within(With(layout, q, child))
    ensures Kids(With(layout, q, child)) == Kids(layout)[q := child.children]
    ensures Ends(With(layout, q, child)) == Ends(layout)[q := child.isEndOfWord]
  {
  }

  lemma {:induction false} WithoutNode(layout: Layout, q: string)
    requires Within(layout)
    ensures Within(layout.(paths := layout.paths - {q}))
    ensures Kids(layout.(paths := layout.paths - {q})) == Kids(layout) - {q}
    ensures Ends(layout.(paths := layout.paths - {q})) == Ends(layout) - {q}
  {
  }

  /** The nodes are those of the trie of the words, and perhaps those on the way to `open`. */
  ghost predicate Spells(ends: map<string, bool>, words: set<string>, open: string) {
    && (forall p :: p in ends <==> InTrie(words, p) || Begins(p, open))
    && (forall p {:trigger ends[p]} :: p in ends ==> (ends[p] <==> p in words))
  }

  /** The heap below the root: a tree of nodes that spells the words. */
  ghost predicate Holds(layout: Layout, words: set<string>, open: string)
    reads layout.nodes
  {
    Within(layout) && Tree(layout.paths, Kids(layout)) && Spells(Ends(layout), words, open)
  }

  lemma {:induction false} SpellsLonger(ends: map<string, bool>, words: set<string>, p: string, ch: char)
    requires Spells(ends, words, p)
    ensures p + [ch] in ends ==> Spells(ends, words, p + [ch])
    ensures p + [ch] !in ends ==> Spells(ends[p + [ch] := false], words, p + [ch])
  {
    forall r ensures Begins(r, p + [ch]) <==> Begins(r, p) || r == p + [ch] {
      BeginsSnoc(r, p, ch);
    }
    if p + [ch] in words {
      assert Begins(p + [ch], p + [ch]) && OnPath(words, p + [ch]);
    }
  }

  lemma {:induction false} SpellsWord(ends: map<string, bool>, words: set<string>, word: string)
    requires Spells(ends, words, word)
    ensures word in ends && Spells(ends[word := true], words + {word}, [])
  {
    assert Begins(word, word);
    forall r ensures InTrie(words + {word}, r) <==> InTrie(words, r) || Begins(r, word) {
      InTrieAdd(words, word, r);
    }
  }

  lemma {:induction false} SpellsAbsent(ends: map<string, bool>, words: set<string>, word: string, p: string)
    requires Spells(ends, words, []) && word !in words && p in ends
    ensures Spells(ends, words - {word}, p)
  {
    assert words - {word} == words;
    forall r | Begins(r, p) ensures r in ends {
      assert InTrie(words, p);
      Shorter(words, p, |r|);
      assert r == p[..|r|];
    }
  }

  lemma {:induction false} SpellsUnmarked(ends: map<string, bool>, words: set<string>, word: string)
    requires Spells(ends, words, []) && word in words
    ensures Spells(ends[word := false], words - {word}, word)
  {
    assert words == (words - {word}) + {word};
    assert Begins(word, word) && OnPath(words, word);
    forall r ensures InTrie(words, r) <==> InTrie(words - {word}, r) || Begins(r, word) {
      InTrieAdd(words - {word}, word, r);
    }
  }

  /** A node that no word goes through is dropped; one that some word goes through need not be kept open. */
  lemma {:induction false} SpellsShorter(ends: map<string, bool>, words: set<string>, p: string, ch: char)
    requires Spells(ends, words, p + [ch])
    ensures OnPath(words, p + [ch]) ==> Spells(ends, words, p)
    ensures !OnPath(words, p + [ch]) ==> Spells(ends - {p + [ch]}, words, p)
  {
    forall r ensures Begins(r, p + [ch]) <==> Begins(r, p) || r == p + [ch] {
      BeginsSnoc(r, p, ch);
    }
  }

  /** A node can go when it is no word and has no children: then no word goes through it. */
  lemma {:induction false} ChildlessIff(paths: Paths, kids: Children, ends: map<string, bool>, words: set<string>,
                                        p: string)
    requires Tree(paths, kids) && ends.Keys == paths.Keys && Spells(ends, words, p) && p in paths
    ensures kids[p] == map[] && !ends[p] <==> !OnPath(words, p)
  {
    OnPathSplit(words, p);
    if kids[p] != map[] {
      assert kids[p].Keys != {};
      var c := Sets.Member(kids[p].Keys);
      assert p + [c] in ends;
      assert !Begins(p + [c], p);
      assert OnPath(words, p + [c]);
    }
    if c :| OnPath(words, p + [c]) {
      assert p + [c] in ends && p + [c] in paths;
    }
  }

  /** The node for one more character is there exactly when some word goes through it, as the word itself does. */
  lemma {:induction false} NextOnPath(ends: map<string, bool>, words: set<string>, word: string, depth: nat)
    requires Spells(ends, words, []) && depth < |word|
    ensures word[..depth + 1] in ends <==> OnPath(words, word[..depth + 1])
    ensures word in words ==> OnPath(words, word[..depth + 1])
    ensures word !in words ==> words - {word} == words
  {
    var q := word[..depth + 1];
    assert !Begins(q, []);
    if word in words {
      assert Begins(q, word);
    }
  }

  // ----- listings -----

  predicate NoDuplicates(found: seq<string>) {
    forall i, j :: 0 <= i < j < |found| ==> found[i] != found[j]
  }

  /** The words that begin with the prefix, each once. */
  ghost predicate Lists(found: seq<string>, words: set<string>, prefix: string) {
    NoDuplicates(found) && forall w :: w in found <==> w in words && Begins(prefix, w)
  }

  /** As much of the listing as needs no child among `rest`. */
  ghost predicate ListsBut(found: seq<string>, words: set<string>, prefix: string, rest: set<char>) {
    && NoDuplicates(found)
    && forall w :: w in found <==> w in words && Begins(prefix, w) && (w == prefix || w[|prefix|] !in rest)
  }

  lemma {:induction false} ListsConcat(found: seq<string>, more: seq<string>, words: set<string>, prefix: string,
                                       rest: set<char>, ch: char)
    requires ListsBut(found, words, prefix, rest) && ch in rest && Lists(more, words, prefix + [ch])
    ensures ListsBut(found + more, words, prefix, rest - {ch})
  {
    forall w ensures w in more <==> w in words && Begins(prefix, w) && w != prefix && w[|prefix|] == ch {
      if Begins(prefix + [ch], w) {
        assert prefix <= prefix + [ch];
        assert w[|prefix|] == (prefix + [ch])[|prefix|];
      }
    }
    assert forall i, j :: 0 <= i < |found| && 0 <= j < |more| ==> found[i] != more[j] by {
      forall i, j | 0 <= i < |found| && 0 <= j < |more| ensures found[i] != more[j] {
        assert found[i] in found && more[j] in more;
      }
    }
  }

  lemma {:induction false} FirstOnly(found: seq<string>, ends: map<string, bool>, words: set<string>, prefix: string,
                                     chars: set<char>)
    requires Spells(ends, words, []) && prefix in ends && forall c :: prefix + [c] in ends ==> c in chars
    requires found == if ends[prefix] then [prefix] else []
    ensures ListsBut(found, words, prefix, chars)
  {
    forall w | w in words && Begins(prefix, w) && w != prefix ensures w[|prefix|] in chars {
      assert Begins(prefix + [w[|prefix|]], w);
      assert OnPath(words, prefix + [w[|prefix|]]);
      assert prefix + [w[|prefix|]] in ends;
    }
    assert Begins(prefix, prefix);
  }

  lemma {:induction false} OnlyWord(words: set<string>, word: string)
    ensures word in words && !OnPath(words - {word}, []) <==> words == {word}
  {
    if word in words && words != {word} {
      assert words - {word} != {};
      var w := Sets.Member(words - {word});
      assert Begins([], w);
    }
  }

  function Below(paths: Paths, prefix: string): set<string> {
    set q | q in paths && Begins(prefix, q)
  }

  lemma {:induction false} BelowChild(paths: Paths, prefix: string, ch: char)
    requires prefix in paths
    ensures Below(paths, prefix + [ch]) < Below(paths, prefix)
  {
    forall q | q in Below(paths, prefix + [ch]) ensures q in Below(paths, prefix) {
      assert prefix <= prefix + [ch];
    }
    assert Begins(prefix, prefix) && prefix in Below(paths, prefix);
    assert !Begins(prefix + [ch], prefix);
  }

  class Trie {
    var root: TrieNode
    ghost var layout: Layout
    ghost var words: set<string>

    ghost predicate Valid()
      reads this, layout.nodes
    {
      Holds(layout, words, []) && layout.paths[[]] == root
    }

    constructor ()
      ensures Valid() && words == {} && fresh(layout.nodes)
    {
      root := new TrieNode();
      new;
      layout, words := Layout({root}, map[[] := root]), {};
    }

    method SearchPrefix(prefix: string) returns (node: TrieNode?)
      requires Valid()
      ensures node != null <==> InTrie(words, prefix)
      ensures node != null ==> prefix in layout.paths && node == layout.paths[prefix]
    {
      node := root;
      for i := 0 to |prefix|
        invariant prefix[..i] in layout.paths && node == layout.paths[prefix[..i]]
      {
        var ch := prefix[i];
        OneMore(prefix, i);
        assert Kids(layout)[prefix[..i]] == node.children;
        if ch !in node.children {
          if InTrie(words, prefix) {
            Shorter(words, prefix, i + 1);
            assert false;
          }
          return null;
        }
        node := node.children[ch];
      }
      Whole(prefix);
    }

    method Search(word: string) returns (found: bool)
      requires Valid()
      ensures found <==> word in words
    {
      var node := SearchPrefix(word);
      if word in words {
        assert Begins(word, word) && OnPath(words, word);
      }
      assert node != null ==> Ends(layout)[word] == node.isEndOfWord;
      found := node != null && node.isEndOfWord;
    }

    method StartsWith(prefix: string) returns (found: bool)
      requires Valid()
      ensures found <==> prefix == [] || exists w :: w in words && Begins(prefix, w)
    {
      var node := SearchPrefix(prefix);
      found := node != null;
    }

    static method SetChildren(node: TrieNode, children: map<char, TrieNode>, ghost p: string, ghost layout: Layout)
      requires Within(layout) && p in layout.paths && node == layout.paths[p]
      requires forall q :: q in layout.paths && layout.paths[q] == node ==> q == p
      modifies node`children
      ensures node.children == children
      ensures Kids(layout) == old(Kids(layout))[p := children] && Ends(layout) == old(Ends(layout))
    {
      node.children := children;
    }

    /** A new child, named by one more character. */
    static method AttachChild(node: TrieNode, ch: char, ghost p: string, ghost layout: Layout)
      returns (child: TrieNode, ghost layout': Layout)
      requires Within(layout) && p in layout.paths && node == layout.paths[p]
      requires forall q :: q in layout.paths && layout.paths[q] == node ==> q == p
      modifies node`children
      ensures fresh(child) && node.children == old(node.children)[ch := child]
      ensures layout' == With(layout, p + [ch], child) && Within(layout')
      ensures Kids(layout') == old(Kids(layout))[p := old(node.children)[ch := child]][p + [ch] := map[]]
      ensures Ends(layout') == old(Ends(layout))[p + [ch] := false]
    {
      child := new TrieNode();
      SetChildren(node, node.children[ch := child], p, layout);
      layout' := With(layout, p + [ch], child);
      WithNode(layout, p + [ch], child);
    }

    static method AddChild(node: TrieNode, ch: char, ghost p: string, ghost layout: Layout, ghost words: set<string>)
      returns (child: TrieNode, ghost layout': Layout)
      requires Holds(layout, words, p) && p in layout.paths && node == layout.paths[p] && ch !in node.children
      modifies node`children
      ensures Holds(layout', words, p + [ch]) && p + [ch] in layout'.paths && child == layout'.paths[p + [ch]]
      ensures layout'.paths[[]] == layout.paths[[]] && fresh(layout'.nodes - layout.nodes)
    {
      ghost var kids, ends := Kids(layout), Ends(layout);
      child, layout' := AttachChild(node, ch, p, layout);
      TreeAdd(layout.paths, kids, p, ch, child);
      SpellsLonger(ends, words, p, ch);
    }

    /** The child for a character, made if need be. */
    static method Descend(node: TrieNode, ch: char, ghost p: string, ghost layout: Layout, ghost words: set<string>)
      returns (child: TrieNode, ghost q: string, ghost layout': Layout)
      requires Holds(layout, words, p) && p in layout.paths && node == layout.paths[p]
      modifies node`children
      ensures q == p + [ch] && Holds(layout', words, q) && q in layout'.paths && child == layout'.paths[q]
      ensures layout'.paths[[]] == layout.paths[[]] && fresh(layout'.nodes - layout.nodes)
    {
      q := p + [ch];
      if ch !in node.children {
        child, layout' := AddChild(node, ch, p, layout, words);
      } else {
        child, layout' := node.children[ch], layout;
        assert Kids(layout)[p] == node.children;
        SpellsLonger(Ends(layout), words, p, ch);
      }
    }

    static method SetEnd(node: TrieNode, end: bool, ghost p: string, ghost layout: Layout)
      requires Within(layout) && p in layout.paths && node == layout.paths[p]
      requires forall q :: q in layout.paths && layout.paths[q] == node ==> q == p
      modifies node`isEndOfWord
      ensures Kids(layout) == old(Kids(layout)) && Ends(layout) == old(Ends(layout))[p := end]
    {
      node.isEndOfWord := end;
    }

    static method MarkWord(node: TrieNode, ghost word: string, ghost layout: Layout, ghost words: set<string>)
      requires Holds(layout, words, word) && word in layout.paths && node == layout.paths[word]
      modifies node`isEndOfWord
      ensures Holds(layout, words + {word}, [])
    {
      SpellsWord(Ends(layout), words, word);
      SetEnd(node, true, word, layout);
    }

    /** Walks down the word from the root, making the nodes that are missing. */
    static method MakePath(root: TrieNode, word: string, ghost layout: Layout, ghost words: set<string>)
      returns (node: TrieNode, ghost layout': Layout)
      requires Holds(layout, words, []) && root == layout.paths[[]]
      modifies layout.nodes
      ensures Holds(layout', words, word) && word in layout'.paths && node == layout'.paths[word]
      ensures layout'.paths[[]] == root && fresh(layout'.nodes - layout.nodes)
    {
      node, layout' := root, layout;
      ghost var at: string := [];
      for i := 0 to |word|
        invariant at == word[..i] && Holds(layout', words, at) && at in layout'.paths && node == layout'.paths[at]
        invariant layout'.paths[[]] == root && fresh(layout'.nodes - layout.nodes)
      {
        OneMore(word, i);
        node, at, layout' := Descend(node, word[i], at, layout', words);
      }
      Whole(word);
    }

    static method InsertBelow(root: TrieNode, word: string, ghost layout: Layout, ghost words: set<string>)
      returns (ghost layout': Layout)
      requires Holds(layout, words, []) && root == layout.paths[[]]
      modifies layout.nodes
      ensures Holds(layout', words + {word}, []) && layout'.paths[[]] == root && fresh(layout'.nodes - layout.nodes)
    {
      var node;
      node, layout' := MakePath(root, word, layout, words);
      MarkWord(node, word, layout', words);
    }

    method Insert(word: string)
      requires Valid()
      modifies this`layout, this`words, layout.nodes
      ensures Valid() && words == old(words) + {word} && fresh(layout.nodes - old(layout.nodes))
    {
      ghost var layout' := InsertBelow(root, word, layout, words);
      ghost var kids, ends := Kids(layout'), Ends(layout');
      assert Tree(layout'.paths, kids) && Spells(ends, words + {word}, []);
      layout, words := layout', words + {word};
      assert Kids(layout) == kids;
      assert Ends(layout) == ends;
    }

    /** A childless child is cut off. */
    static method DetachChild(node: TrieNode, ch: char, ghost p: string, ghost layout: Layout)
      returns (ghost layout': Layout)
      requires Within(layout) && p in layout.paths && node == layout.paths[p]
      requires forall q :: q in layout.paths && layout.paths[q] == node ==> q == p
      modifies node`children
      ensures layout' == layout.(paths := layout.paths - {p + [ch]}) && Within(layout')
      ensures Kids(layout') == old(Kids(layout))[p := old(node.children) - {ch}] - {p + [ch]}
      ensures Ends(layout') == old(Ends(layout)) - {p + [ch]}
    {
      SetChildren(node, node.children - {ch}, p, layout);
      layout' := layout.(paths := layout.paths - {p + [ch]});
      WithoutNode(layout, p + [ch]);
    }

    /** At the end of the word its mark goes. */
    static method RemoveHere(node: TrieNode, ghost word: string, ghost layout: Layout, ghost words: set<string>)
      returns (shouldDelete: bool)
      requires Holds(layout, words, []) && word in layout.paths && node == layout.paths[word]
      modifies node`isEndOfWord
      ensures Holds(layout, words - {word}, word)
      ensures shouldDelete <==> word in words && !OnPath(words - {word}, word)
    {
      assert Ends(layout)[word] == node.isEndOfWord;
      if !node.isEndOfWord {
        SpellsAbsent(Ends(layout), words, word, word);
        return false;
      }
      SpellsUnmarked(Ends(layout), words, word);
      SetEnd(node, false, word, layout);
      ChildlessIff(layout.paths, Kids(layout), Ends(layout), words - {word}, word);
      assert Kids(layout)[word] == node.children;
      shouldDelete := node.children == map[];
    }

    static method DropChild(node: TrieNode, ch: char, ghost p: string, ghost layout: Layout, ghost words: set<string>)
      returns (ghost layout': Layout)
      requires Holds(layout, words, p + [ch]) && p in layout.paths && node == layout.paths[p]
      requires !OnPath(words, p + [ch])
      modifies node`children
      ensures Holds(layout', words, p) && layout' == layout.(paths := layout.paths - {p + [ch]})
    {
      ghost var kids, ends := Kids(layout), Ends(layout);
      assert Begins(p + [ch], p + [ch]);
      ChildlessIff(layout.paths, kids, ends, words, p + [ch]);
      TreeRemove(layout.paths, kids, p, ch);
      SpellsShorter(ends, words, p, ch);
      layout' := DetachChild(node, ch, p, layout);
    }

    /** After the word is gone below a child: the child goes if it can, and perhaps the node can then too. */
    static method AfterChild(node: TrieNode, ch: char, deleteChild: bool, ghost p: string, ghost layout: Layout,
                             ghost words: set<string>)
      returns (shouldDelete: bool, ghost layout': Layout)
      requires Holds(layout, words, p + [ch]) && p in layout.paths && node == layout.paths[p]
      requires deleteChild <==> !OnPath(words, p + [ch])
      modifies node`children
      ensures Holds(layout', words, p) && layout'.nodes == layout.nodes
      ensures forall q :: q in layout'.paths ==> q in layout.paths && layout'.paths[q] == layout.paths[q]
      ensures shouldDelete <==> !OnPath(words, p)
    {
      if deleteChild {
        layout' := DropChild(node, ch, p, layout, words);
        ChildlessIff(layout'.paths, Kids(layout'), Ends(layout'), words, p);
        assert Kids(layout')[p] == node.children && Ends(layout')[p] == node.isEndOfWord;
        shouldDelete := node.children == map[] && !node.isEndOfWord;
      } else {
        SpellsShorter(Ends(layout), words, p, ch);
        OnPathSplit(words, p);
        shouldDelete, layout' := false, layout;
      }
    }

    /** Removes the word below the node for its first `depth` characters; says whether the node can go too. */
    static method RemoveHelper(node: TrieNode, word: string, depth: nat, ghost layout: Layout, ghost words: set<string>)
      returns (shouldDelete: bool, ghost layout': Layout)
      requires depth <= |word| && Holds(layout, words, [])
      requires word[..depth] in layout.paths && node == layout.paths[word[..depth]]
      modifies layout.nodes
      ensures Holds(layout', words - {word}, word[..depth]) && layout'.nodes == layout.nodes
      ensures forall p :: p in layout'.paths ==> p in layout.paths && layout'.paths[p] == layout.paths[p]
      ensures shouldDelete <==> word in words && !OnPath(words - {word}, word[..depth])
      decreases |word| - depth
    {
      if depth == |word| {
        Whole(word);
        shouldDelete := RemoveHere(node, word, layout, words);
        layout' := layout;
      } else {
        shouldDelete, layout' := RemoveBelow(node, word, depth, layout, words);
      }
    }

    static method RemoveBelow(node: TrieNode, word: string, depth: nat, ghost layout: Layout, ghost words: set<string>)
      returns (shouldDelete: bool, ghost layout': Layout)
      requires depth < |word| && Holds(layout, words, [])
      requires word[..depth] in layout.paths && node == layout.paths[word[..depth]]
      modifies layout.nodes
      ensures Holds(layout', words - {word}, word[..depth]) && layout'.nodes == layout.nodes
      ensures forall p :: p in layout'.paths ==> p in layout.paths && layout'.paths[p] == layout.paths[p]
      ensures shouldDelete <==> word in words && !OnPath(words - {word}, word[..depth])
      decreases |word| - depth, 0
    {
      var ch := word[depth];
      ghost var p := word[..depth];
      assert word[..depth + 1] == p + [ch];
      assert Kids(layout)[p] == node.children;
      NextOnPath(Ends(layout), words, word, depth);
      if ch !in node.children {
        SpellsAbsent(Ends(layout), words, word, p);
        return false, layout;
      }
      var child := node.children[ch];
      var deleteChild, layout1 := RemoveHelper(child, word, depth + 1, layout, words);
      assert Begins(p, p + [ch]);
      shouldDelete, layout' := AfterChild(node, ch, deleteChild, p, layout1, words - {word});
    }

    static method RemoveFrom(root: TrieNode, word: string, ghost layout: Layout, ghost words: set<string>)
      returns (emptied: bool, ghost layout': Layout)
      requires Holds(layout, words, []) && root == layout.paths[[]]
      modifies layout.nodes
      ensures Holds(layout', words - {word}, []) && layout'.paths[[]] == root && layout'.nodes == layout.nodes
      ensures emptied <==> words == {word}
    {
      Whole(word);
      emptied, layout' := RemoveHelper(root, word, 0, layout, words);
      OnlyWord(words, word);
    }

    /** Removes the word; the answer says whether it was the only one. */
    method Remove(word: string) returns (emptied: bool)
      requires Valid()
      modifies this`layout, this`words, layout.nodes
      ensures Valid() && words == old(words) - {word} && layout.nodes == old(layout.nodes)
      ensures emptied <==> old(words) == {word}
    {
      ghost var layout';
      emptied, layout' := RemoveFrom(root, word, layout, words);
      ghost var kids, ends := Kids(layout'), Ends(layout');
      assert Tree(layout'.paths, kids) && Spells(ends, words - {word}, []);
      layout, words := layout', words - {word};
      assert Kids(layout) == kids;
      assert Ends(layout) == ends;
    }

    /** The words below a node, in the order its children happen to come in. */
    static method CollectWords(node: TrieNode, currentPrefix: string, ghost layout: Layout, ghost words: set<string>)
      returns (found: seq<string>)
      requires Holds(layout, words, []) && currentPrefix in layout.paths && node == layout.paths[currentPrefix]
      ensures Lists(found, words, currentPrefix)
      decreases Below(layout.paths, currentPrefix)
    {
      assert Ends(layout)[currentPrefix] == node.isEndOfWord && Kids(layout)[currentPrefix] == node.children;
      found := if node.isEndOfWord then [currentPrefix] else [];
      var rest := node.children.Keys;
      FirstOnly(found, Ends(layout), words, currentPrefix, rest);
      while rest != {}
        invariant rest <= node.children.Keys && ListsBut(found, words, currentPrefix, rest)
      {
        var ch := Sets.AnyOf(rest);
        BelowChild(layout.paths, currentPrefix, ch);
        var more := CollectWords(node.children[ch], currentPrefix + [ch], layout, words);
        ListsConcat(found, more, words, currentPrefix, rest, ch);
        found := found + more;
        rest := rest - {ch};
      }
    }

    method GetWordsWithPrefix(prefix: string) returns (result: seq<string>)
      requires Valid()
      ensures Lists(result, words, prefix)
    {
      var node := SearchPrefix(prefix);
      if node == null {
        return [];
      }
      result := CollectWords(node, prefix, layout, words);
    }
  }
}
