/** The prefix tree of data-structures/trie.go as a set of words. A character is one byte and one rune,
    as for ASCII words. Go ranges over a map in any order, so the search below takes any order. */
module Trie {
  import opened MapValues

  class TrieNode {
    var children: map<char, TrieNode>
    var isEnd: bool
    /** The characters that lead to the node. */
    ghost const path: string

    constructor (ghost path: string)
      ensures children == map[] && !isEnd && this.path == path
    {
      children, isEnd := map[], false;
      this.path := path;
    }
  }

  lemma SameAppended(s: string, x: char, t: string, y: char)
    ensures s + [x] == t + [y] <==> s == t && x == y
  {
    if s + [x] == t + [y] {
      assert (s + [x])[|s|] == (t + [y])[|t|];
      assert (s + [x])[..|s|] == s && (t + [y])[..|t|] == t;
    }
  }

  ghost predicate HasParent(nodes: map<string, TrieNode>, p: string) {
    p != [] ==> p[..|p| - 1] in nodes
  }

  ghost predicate Closed(nodes: map<string, TrieNode>) {
    forall p {:trigger HasParent(nodes, p)} :: p in nodes ==> HasParent(nodes, p)
  }

  lemma NoGrandchild(nodes: map<string, TrieNode>, q: string, c: char)
    requires Closed(nodes) && q !in nodes
    ensures q + [c] !in nodes
  {
    assert (q + [c])[..|q|] == q;
    assert q + [c] in nodes ==> HasParent(nodes, q + [c]);
  }

  lemma ClosedWith(nodes: map<string, TrieNode>, p: string, c: char, v: TrieNode)
    requires Closed(nodes) && p in nodes
    ensures Closed(nodes[p + [c] := v])
  {
    var next := nodes[p + [c] := v];
    forall r | r in next ensures HasParent(next, r) {
      assert (p + [c])[..|p|] == p;
      assert r in nodes ==> HasParent(nodes, r);
    }
  }

  lemma ClosedWithout(nodes: map<string, TrieNode>, q: string)
    requires Closed(nodes) && forall d :: q + [d] !in nodes
    ensures Closed(nodes - {q})
  {
    var next := nodes - {q};
    forall r | r in next ensures HasParent(next, r) {
      assert HasParent(nodes, r);
      if r != [] {
        assert r == r[..|r| - 1] + [r[|r| - 1]];
      }
    }
  }

  ghost predicate Within(nodes: map<string, TrieNode>, before: map<string, TrieNode>) {
    forall p :: p in nodes ==> p in before && nodes[p] == before[p]
  }

  class Trie {
    var root: TrieNode
    /** Every node by the characters that lead to it. */
    ghost var nodes: map<string, TrieNode>
    ghost var words: set<string>

    ghost function NodeAt(p: string): TrieNode?
      reads this
    {
      if p in nodes then nodes[p] else null
    }

    ghost predicate ChildAt(p: string, c: char)
      requires p in nodes
      reads this, nodes.Values
    {
      NodeAt(p + [c]) == if c in nodes[p].children then nodes[p].children[c] else null
    }

    ghost predicate Sound(p: string)
      requires p in nodes
      reads this, nodes.Values
    {
      && nodes[p].path == p && (nodes[p].isEnd <==> p in words)
      && forall c {:trigger ChildAt(p, c)} :: ChildAt(p, c)
    }

    /** The node ends a word or leads on. */
    ghost predicate Alive(p: string)
      requires p in nodes
      reads this, nodes.Values
    {
      nodes[p].isEnd || nodes[p].children != map[]
    }

    /** Everything but that the node at `dead` may lead nowhere. */
    ghost predicate ValidBut(dead: string)
      reads this, nodes.Values
    {
      && [] in nodes && nodes[[]] == root && words <= nodes.Keys
      && (forall p {:trigger Sound(p)} :: p in nodes ==> Sound(p))
      && Closed(nodes)
      && (forall p {:trigger Alive(p)} :: p in nodes && p != [] && p != dead ==> Alive(p))
    }

    /** No branch is dead: every node but the root ends a word or leads on. */
    ghost predicate Valid()
      reads this, nodes.Values
    {
      ValidBut([])
    }

    constructor ()
      ensures Valid() && words == {} && fresh(nodes.Values)
    {
      root := new TrieNode([]);
      new;
      nodes, words := map[[] := root], {};
      assert Sound([]);
    }

    // Inserting.

    method AddChild(ghost p: string, n: TrieNode, c: char, made: TrieNode)
      requires ValidBut(p) && NodeAt(p) == n && c !in n.children
      requires made !in nodes.Values && made.path == p + [c] && !made.isEnd && made.children == map[]
      modifies this`nodes, n`children
      ensures ValidBut(p + [c]) && nodes == old(nodes)[p + [c] := made] && nodes.Values == old(nodes.Values) + {made}
      ensures c in n.children && n.children[c] == made
    {
      ghost var q, before := p + [c], nodes;
      assert Sound(p) && ChildAt(p, c);
      n.children := n.children[c := made];
      nodes := nodes[q := made];
      NewValue(before, q, made);
      ClosedWith(before, p, c, made);
      forall r | r in nodes && r != q ensures Sound(r) {
        assert old(Sound(r));
        forall d ensures ChildAt(r, d) {
          SameAppended(p, c, r, d);
          assert old(ChildAt(r, d));
        }
      }
      forall d ensures ChildAt(q, d) {
        NoGrandchild(before, q, d);
        assert q + [d] != q;
      }
      assert Sound(q);
      forall r | r in nodes && r != [] && r != q ensures Alive(r) {
        if r != p {
          assert old(Alive(r));
          assert old(Sound(r));
        } else {
          assert c in n.children;
        }
      }
    }

    method Descend(ghost p: string, n: TrieNode, c: char) returns (next: TrieNode)
      requires ValidBut(p) && NodeAt(p) == n
      modifies this`nodes, n`children
      ensures ValidBut(p + [c]) && NodeAt(p + [c]) == next
      ensures old(nodes.Values) <= nodes.Values && fresh(nodes.Values - old(nodes.Values))
    {
      assert Sound(p) && ChildAt(p, c);
      if c !in n.children {
        var made := new TrieNode(p + [c]);
        AddChild(p, n, c, made);
      }
      next := n.children[c];
      forall r | r in nodes && r != [] && r != p + [c] ensures Alive(r) {
        if r == p {
          assert c in n.children;
        }
      }
    }

    method SetEnd(ghost p: string, n: TrieNode, end: bool)
      requires ValidBut(p) && NodeAt(p) == n
      modifies this`words, n`isEnd
      ensures words == if end then old(words) + {p} else old(words) - {p}
      ensures ValidBut(p) && (end ==> Valid()) && n.isEnd == end && nodes == old(nodes)
    {
      assert Sound(p);
      n.isEnd := end;
      words := if end then words + {p} else words - {p};
      forall r | r in nodes ensures Sound(r) {
        assert old(Sound(r));
        forall d ensures ChildAt(r, d) {
          assert old(ChildAt(r, d));
        }
      }
      forall r | r in nodes && r != [] && r != p ensures Alive(r) {
        assert old(Alive(r)) && old(Sound(r));
      }
    }

    method Insert(word: string)
      requires Valid()
      modifies this`nodes, this`words, nodes.Values
      ensures Valid() && words == old(words) + {word}
      ensures fresh(nodes.Values - old(nodes.Values))
    {
      var n := root;
      for i := 0 to |word|
        invariant ValidBut(word[..i]) && NodeAt(word[..i]) == n && words == old(words)
        invariant fresh(nodes.Values - old(nodes.Values))
      {
        assert word[..i + 1] == word[..i] + [word[i]];
        n := Descend(word[..i], n, word[i]);
      }
      assert word[..|word|] == word;
      SetEnd(word, n, true);
    }

    // Looking up.

    /** Characters that lead off the tree lead to no node further on. */
    static lemma {:induction false} NothingBelow(nodes: map<string, TrieNode>, word: string, d: nat)
      requires Closed(nodes) && d <= |word| && word[..d] !in nodes
      ensures word !in nodes
      decreases |word| - d
    {
      if d < |word| {
        assert word[..d + 1] == word[..d] + [word[d]];
        NoGrandchild(nodes, word[..d], word[d]);
        NothingBelow(nodes, word, d + 1);
      } else {
        assert word[..d] == word;
      }
    }

    /** The node for `word`, if there is one. */
    method Walk(word: string) returns (n: TrieNode?)
      requires Valid()
      ensures n == NodeAt(word)
    {
      n := root;
      for i := 0 to |word|
        invariant NodeAt(word[..i]) == n && n != null
      {
        assert word[..i + 1] == word[..i] + [word[i]];
        assert Sound(word[..i]) && ChildAt(word[..i], word[i]);
        if word[i] !in n.children {
          NothingBelow(nodes, word, i + 1);
          return null;
        }
        n := n.children[word[i]];
      }
      assert word[..|word|] == word;
    }

    method Search(word: string) returns (found: bool)
      requires Valid()
      ensures found <==> word in words
    {
      var n := Walk(word);
      if n == null {
        return false;
      }
      assert Sound(word);
      return n.isEnd;
    }

    ghost function Below(p: string): set<string>
      reads this
    {
      set q | q in nodes && p <= q
    }

    /** No branch is dead: from every node but the root some word can be reached. */
    lemma {:induction false} LeadsToWord(p: string) returns (w: string)
      requires Valid() && p in nodes && p != []
      ensures w in words && p <= w
      decreases Below(p)
    {
      assert Sound(p) && Alive(p);
      if nodes[p].isEnd {
        w := p;
      } else {
        var c :| c in nodes[p].children;
        assert ChildAt(p, c);
        assert p in Below(p) && p !in Below(p + [c]);
        assert Below(p + [c]) < Below(p);
        w := LeadsToWord(p + [c]);
      }
    }

    lemma PrefixIsNode(p: string, w: string)
      requires Valid() && w in words && p <= w
      ensures p in nodes
    {
      if p !in nodes {
        assert w[..|p|] == p;
        NothingBelow(nodes, w, |p|);
      }
    }

    ghost predicate Extends(p: string) reads this { exists w :: w in words && p <= w }

    /** The empty prefix is always found, even in an empty trie. */
    method StartsWith(prefix: string) returns (found: bool)
      requires Valid()
      ensures found <==> prefix == [] || Extends(prefix)
    {
      var n := Walk(prefix);
      found := n != null;
      if found && prefix != [] {
        ghost var w := LeadsToWord(prefix);
      } else if Extends(prefix) {
        ghost var w :| w in words && prefix <= w;
        PrefixIsNode(prefix, w);
      }
    }

    /** The nodes are exactly the prefixes of the words, and the root. */
    lemma NodesArePrefixes(p: string)
      requires Valid()
      ensures p in nodes <==> p == [] || Extends(p)
    {
      if p in nodes && p != [] {
        var w := LeadsToWord(p);
      } else if Extends(p) {
        var w :| w in words && p <= w;
        PrefixIsNode(p, w);
      }
    }

    // Deleting.

    method RemoveChild(ghost p: string, parent: TrieNode, c: char, ghost n: TrieNode)
      requires ValidBut(p + [c]) && NodeAt(p) == parent && NodeAt(p + [c]) == n
      requires n.children == map[] && !n.isEnd
      modifies this`nodes, parent`children
      ensures ValidBut(p) && nodes == old(nodes) - {p + [c]}
      ensures parent.children == old(parent.children) - {c}
    {
      ghost var q := p + [c];
      assert Sound(q) && Sound(p);
      forall d ensures q + [d] !in nodes {
        assert ChildAt(q, d);
      }
      ClosedWithout(nodes, q);
      parent.children := parent.children - {c};
      nodes := nodes - {q};
      forall r | r in nodes ensures Sound(r) {
        assert old(Sound(r));
        forall d ensures ChildAt(r, d) {
          SameAppended(p, c, r, d);
          assert old(ChildAt(r, d));
        }
      }
      forall r | r in nodes && r != [] && r != p ensures Alive(r) {
        assert old(Alive(r)) && old(Sound(r));
      }
    }

    method DeleteIterative(word: string) returns (found: bool)
      requires Valid()
      modifies this`nodes, this`words, nodes.Values
      ensures Valid() && words == old(words) - {word}
      ensures found <==> word in old(words)
      ensures Within(nodes, old(nodes))
    {
      var n := root;
      var searchPath := [root];
      for i := 0 to |word|
        invariant NodeAt(word[..i]) == n && |searchPath| == i + 1
        invariant forall k :: 0 <= k <= i ==> NodeAt(word[..k]) == searchPath[k]
      {
        assert word[..i + 1] == word[..i] + [word[i]];
        assert Sound(word[..i]) && ChildAt(word[..i], word[i]);
        if word[i] !in n.children {
          NothingBelow(nodes, word, i + 1);
          return false;
        }
        searchPath := searchPath + [n.children[word[i]]];
        n := n.children[word[i]];
      }
      assert word[..|word|] == word;
      assert Sound(word);
      if !n.isEnd {
        return false;
      }
      SetEnd(word, n, false);
      Prune(word, searchPath);
      return true;
    }

    /** Going back up, removes nodes until one ends a word or leads on. */
    method Prune(word: string, searchPath: seq<TrieNode>)
      requires ValidBut(word) && |searchPath| == |word| + 1
      requires forall k :: 0 <= k <= |word| ==> NodeAt(word[..k]) == searchPath[k]
      modifies this`nodes, nodes.Values
      ensures Valid() && Within(nodes, old(nodes))
    {
      var n := searchPath[|word|];
      assert word[..|word|] == word;
      for i := |word| downto 0
        invariant ValidBut(word[..i]) && NodeAt(word[..i]) == n && Within(nodes, old(nodes))
        invariant forall k :: 0 <= k <= i ==> NodeAt(word[..k]) == searchPath[k]
      {
        assert word[..i + 1] == word[..i] + [word[i]];
        var val := word[i];
        var parent := searchPath[i];
        if |n.children| == 0 && !n.isEnd {
          RemoveChild(word[..i], parent, val, n);
          n := parent;
        } else {
          assert Alive(word[..i + 1]);
          return;
        }
      }
    }

    method DeleteRecursive(word: string, pos: nat, n: TrieNode) returns (deleteWord: bool, deleteChild: bool)
      requires Valid() && (pos <= |word| ==> NodeAt(word[..pos]) == n)
      modifies this`nodes, this`words, nodes.Values
      ensures deleteWord <==> pos <= |word| && word in old(words)
      ensures !deleteWord ==> !deleteChild && Valid() && words == old(words) && nodes == old(nodes)
      ensures deleteWord ==>
        && word[..pos] in nodes && ValidBut(word[..pos]) && words == old(words) - {word}
        && (deleteChild <==> !Alive(word[..pos]))
      ensures Within(nodes, old(nodes))
      decreases |word| - pos
    {
      if |word| < pos {
        return false, false;
      }
      assert Sound(word[..pos]);
      if |word| == pos {
        assert word[..pos] == word;
        if !n.isEnd {
          return false, false;
        }
        SetEnd(word, n, false);
        return true, 0 == |n.children|;
      }
      var val := word[pos];
      assert word[..pos + 1] == word[..pos] + [val];
      assert ChildAt(word[..pos], val);
      if val !in n.children {
        NothingBelow(nodes, word, pos + 1);
        return false, false;
      }
      deleteWord, deleteChild := DeleteRecursive(word, pos + 1, n.children[val]);
      if !deleteWord {
        return false, false;
      }
      assert HasParent(nodes, word[..pos + 1]) && word[..pos + 1][..pos] == word[..pos];
      assert Sound(word[..pos]) && ChildAt(word[..pos], val);
      if deleteChild {
        RemoveChild(word[..pos], n, val, nodes[word[..pos + 1]]);
        if |n.children| == 0 && !n.isEnd {
          return true, true;
        }
      }
      return true, false;
    }

    // Listing.

    ghost function WordsBelow(p: string): set<string>
      reads this
    {
      set w | w in words && p <= w
    }

    /** The words through `p` that end there or go on with a character of `done`. */
    ghost function WordsVia(p: string, done: set<char>): set<string>
      reads this
    {
      set w | w in words && p <= w && (w == p || w[|p|] in done)
    }

    lemma ViaGrows(p: string, done: set<char>, c: char)
      requires c !in done
      ensures WordsVia(p, done + {c}) == WordsVia(p, done) + WordsBelow(p + [c])
      ensures WordsVia(p, done) !! WordsBelow(p + [c])
    {
      forall w | w in words ensures p + [c] <= w <==> p <= w && w != p && w[|p|] == c {
        if p <= w && w != p && w[|p|] == c {
          assert w[..|p| + 1] == p + [c];
        }
      }
    }

    lemma ViaAll(p: string)
      requires Valid() && p in nodes
      ensures WordsVia(p, nodes[p].children.Keys) == WordsBelow(p)
    {
      assert Sound(p);
      forall w | w in words && p <= w && w != p ensures w[|p|] in nodes[p].children {
        assert w[..|p| + 1] == p + [w[|p|]];
        PrefixIsNode(p + [w[|p|]], w);
        assert ChildAt(p, w[|p|]);
      }
    }

    method FindSuffixesDFS(prefix: string, suffixSoFar: string, words0: seq<string>, n: TrieNode)
      returns (out: seq<string>)
      requires Valid() && NodeAt(prefix + suffixSoFar) == n
      ensures words0 <= out && Lists(out[|words0|..], WordsBelow(prefix + suffixSoFar))
      decreases Below(prefix + suffixSoFar)
    {
      ghost var p := prefix + suffixSoFar;
      assert Sound(p);
      out := words0;
      ghost var found: seq<string> := [];
      if n.isEnd {
        out, found := out + [prefix + suffixSoFar], [p];
      }
      assert WordsVia(p, {}) == if p in words then {p} else {};
      var todo := n.children.Keys;
      ghost var done: set<char> := {};
      while todo != {}
        invariant todo + done == n.children.Keys && todo !! done
        invariant out == words0 + found && Lists(found, WordsVia(p, done))
      {
        var c :| c in todo;
        assert ChildAt(p, c) && prefix + (suffixSoFar + [c]) == p + [c];
        assert p in Below(p) && p !in Below(p + [c]) && Below(p + [c]) < Below(p);
        ghost var before := out;
        out := FindSuffixesDFS(prefix, suffixSoFar + [c], out, n.children[c]);
        ghost var more := out[|before|..];
        ViaGrows(p, done, c);
        ListsJoin(found, WordsVia(p, done), more, WordsBelow(p + [c]));
        assert out == words0 + (found + more);
        found := found + more;
        todo, done := todo - {c}, done + {c};
      }
      assert done == n.children.Keys && out[|words0|..] == found;
      ViaAll(p);
    }

    /** Every stored word with the prefix, each once. */
    method FindAllWithPrefix(prefix: string) returns (out: seq<string>)
      requires Valid()
      ensures Lists(out, WordsBelow(prefix))
    {
      var n := Walk(prefix);
      if n == null {
        if Extends(prefix) {
          ghost var w :| w in words && prefix <= w;
          PrefixIsNode(prefix, w);
        }
        return [];
      }
      assert prefix + [] == prefix;
      out := FindSuffixesDFS(prefix, [], [], n);
      assert out[0..] == out;
    }
  }

  ghost predicate Lists(s: seq<string>, words: set<string>) {
    && (forall w :: w in s <==> w in words)
    && forall i, j :: 0 <= i < j < |s| ==> s[i] != s[j]
  }

  lemma ListsJoin(s: seq<string>, words: set<string>, t: seq<string>, more: set<string>)
    requires Lists(s, words) && Lists(t, more) && words !! more
    ensures Lists(s + t, words + more)
  {
    forall i, j | 0 <= i < j < |s + t| ensures (s + t)[i] != (s + t)[j] {
      if i < |s| <= j {
        assert (s + t)[i] in words && (s + t)[j] == t[j - |s|] && t[j - |s|] in more;
      }
    }
  }

  /** The words fix the whole structure, so deleting a word leaves the same trie whichever way it is done. */
  lemma SameWordsSameShape(a: Trie, b: Trie, p: string)
    requires a.Valid() && b.Valid() && a.words == b.words
    ensures p in a.nodes <==> p in b.nodes
    ensures p in a.nodes ==>
      a.nodes[p].isEnd == b.nodes[p].isEnd && a.nodes[p].children.Keys == b.nodes[p].children.Keys
  {
    a.NodesArePrefixes(p);
    b.NodesArePrefixes(p);
    assert a.Extends(p) <==> b.Extends(p);
    if p in a.nodes {
      assert a.Sound(p) && b.Sound(p);
      forall c ensures c in a.nodes[p].children <==> c in b.nodes[p].children {
        assert a.ChildAt(p, c) && b.ChildAt(p, c);
        a.NodesArePrefixes(p + [c]);
        b.NodesArePrefixes(p + [c]);
        assert a.Extends(p + [c]) <==> b.Extends(p + [c]);
      }
    }
  }
}
