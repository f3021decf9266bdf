/** The prefix tree over lower-case words (course/algorithm/trie.md). */
module Trie {

  ghost predicate IsLetter(c: char) {
    'a' <= c <= 'z'
  }

  /** A word of the 26 letters the node's children are indexed by. */
  ghost predicate LowerCase(w: string) {
    forall k :: 0 <= k < |w| ==> IsLetter(w[k])
  }

  function Slot(c: char): int {
    c as int - 'a' as int
  }

  /** Each letter of the alphabet has a slot of its own, and the 26 slots are those. */
  lemma LettersFillSlots(c: char, k: int)
    ensures IsLetter(c) <==> c in "abcdefghijklmnopqrstuvwxyz"
    ensures 0 <= k < 26 ==> IsLetter("abcdefghijklmnopqrstuvwxyz"[k]) && Slot("abcdefghijklmnopqrstuvwxyz"[k]) == k
  {
    var alphabet := "abcdefghijklmnopqrstuvwxyz";
    assert IsLetter(c) ==> 0 <= Slot(c) < 26 && alphabet[Slot(c)] == c;
  }

  ghost function Extend(p: string, c: char): (q: string)
    ensures |q| == |p| + 1 && q[..|p|] == p && q[|p|] == c
  {
    p + [c]
  }

  lemma TakeNext(w: string, i: nat)
    requires i < |w|
    ensures Extend(w[..i], w[i]) == w[..i + 1]
  {
  }

  lemma TakeAll(w: string)
    ensures w[..|w|] == w
  {
  }

  /** The node of each stored path. */
  type Nodes = map<string, Trie>

  /** The child pointers found at each stored path. */
  type Links = map<string, seq<Trie?>>

  ghost function NodeAt(nodes: Nodes, p: string): Trie? {
    if p in nodes then nodes[p] else null
  }

  ghost predicate Injective(nodes: Nodes) {
    forall p, q :: p in nodes && q in nodes && p != q ==> nodes[p] != nodes[q]
  }

  /** An unshared tree: every path has a node of its own, and the pointer at a letter leads
      to the node of the path extended by that letter, if that path is stored. */
  ghost predicate Shape(nodes: Nodes, links: Links) {
    && "" in nodes && links.Keys == nodes.Keys && Injective(nodes)
    && (forall p :: p in links ==> |links[p]| == 26)
    && (forall p, c :: p in links && IsLetter(c) ==> links[p][Slot(c)] == NodeAt(nodes, Extend(p, c)))
    && (forall p, c :: Extend(p, c) in nodes ==> p in nodes && IsLetter(c))
  }

  ghost predicate IsEmpty(children: seq<Trie?>) {
    |children| == 26 && forall k :: 0 <= k < 26 ==> children[k] == null
  }

  /** A fresh node hung at a free slot keeps the shape. */
  lemma GrowShape(nodes: Nodes, links: Links, p: string, c: char, child: Trie, none: seq<Trie?>)
    requires Shape(nodes, links) && p in nodes && IsLetter(c) && Extend(p, c) !in nodes && child !in nodes.Values
    requires IsEmpty(none)
    ensures Shape(nodes[Extend(p, c) := child], links[p := links[p][Slot(c) := child]][Extend(p, c) := none])
  {
  }

  /** Every path but the empty one leads toward a word, or toward `pending`. */
  ghost predicate OnPaths(paths: set<string>, words: set<string>, pending: string) {
    forall p :: p in paths && p != "" ==> p <= pending || exists w :: w in words && p <= w
  }

  lemma OnPathsExtend(paths: set<string>, words: set<string>, pending: string, c: char)
    requires OnPaths(paths, words, pending)
    ensures OnPaths(paths + {Extend(pending, c)}, words, Extend(pending, c))
  {
  }

  lemma OnPathsEnd(paths: set<string>, words: set<string>, word: string)
    requires OnPaths(paths, words, word)
    ensures OnPaths(paths, words + {word}, "")
  {
  }

  /** Stored paths are closed under prefixes. */
  lemma {:induction false} PrefixStored(nodes: Nodes, links: Links, p: string, w: string)
    requires Shape(nodes, links) && w in nodes && p <= w
    ensures p in nodes
    decreases |w|
  {
    if |p| == |w| {
      assert p == w;
    } else {
      var u := w[..|w| - 1];
      assert w == Extend(u, w[|u|]);
      PrefixStored(nodes, links, p, u);
    }
  }

  lemma MissingPath(nodes: Nodes, links: Links, w: string, k: nat)
    requires Shape(nodes, links) && k <= |w| && w[..k] !in nodes
    ensures w !in nodes
  {
    if w in nodes { PrefixStored(nodes, links, w[..k], w); }
  }

  class Trie {
    /** The array of 26 child pointers that the node holds in itself. */
    var children: seq<Trie?>
    var isEnd: bool
    /** For the root of a trie: the nodes of its stored paths, what their child pointers are,
        and the words stored, which are the paths of the nodes marked as ends. */
    ghost var nodes: Nodes
    ghost var links: Links
    ghost var words: set<string>

    ghost predicate Recorded()
      reads this, nodes.Values
    {
      && links.Keys == nodes.Keys && words <= nodes.Keys
      && forall p :: p in nodes ==> nodes[p].children == links[p] && (nodes[p].isEnd <==> p in words)
    }

    ghost predicate Tree()
      reads this, nodes.Values
    {
      NodeAt(nodes, "") == this && Shape(nodes, links) && Recorded()
    }

    ghost predicate Valid()
      reads this, nodes.Values
    {
      Tree() && OnPaths(nodes.Keys, words, "")
    }

    /** Lines 14 to 19. */
    constructor ()
      ensures Valid() && words == {} && nodes == map["" := this]
      ensures IsEmpty(children) && !isEnd
    {
      children := seq(26, _ => null);
      isEnd := false;
      new;
      nodes, links, words := map["" := this], map["" := children], {};
    }

    /** Line 34, the call. */
    static method NewChild() returns (child: Trie)
      ensures fresh(child) && IsEmpty(child.children) && !child.isEnd
    {
      child := new Trie();
    }

    /** Line 34, the assignment. */
    method Attach(obj: Trie, ghost path: string, c: char, ghost q: string, child: Trie)
      requires Recorded() && path in nodes && nodes[path] == obj && 0 <= Slot(c) < |obj.children|
      requires forall p :: p in nodes ==> nodes[p] != child && (p != path ==> nodes[p] != obj)
      requires q !in nodes && !child.isEnd
      modifies this`nodes, this`links, obj`children
      ensures nodes == old(nodes)[q := child]
      ensures links == old(links)[path := old(links)[path][Slot(c) := child]][q := child.children]
      ensures Recorded()
    {
      obj.children := obj.children[Slot(c) := child];
      nodes := nodes[q := child];
      links := links[path := obj.children][q := child.children];
      forall p | p in nodes && p != q ensures nodes[p].children == links[p] && (nodes[p].isEnd <==> p in words) {
        assert p == path || old(nodes)[p] != obj;
      }
    }

    /** Lines 33 and 34: a missing child is created. */
    method Grow(obj: Trie, ghost path: string, c: char)
      requires Tree() && NodeAt(nodes, path) == obj && IsLetter(c) && Extend(path, c) !in nodes
      modifies this`nodes, this`links, obj`children
      ensures Tree() && NodeAt(nodes, path) == obj && nodes.Keys == old(nodes.Keys) + {Extend(path, c)}
      ensures fresh(nodes.Values - old(nodes.Values))
    {
      var child := NewChild();
      GrowShape(nodes, links, path, c, child, child.children);
      Attach(obj, path, c, Extend(path, c), child);
    }

    /** Lines 32 to 35: one step down the path of a word. */
    method Descend(obj: Trie, ghost path: string, c: char) returns (next: Trie)
      requires Tree() && NodeAt(nodes, path) == obj && IsLetter(c)
      modifies this`nodes, this`links, obj`children
      ensures Tree() && NodeAt(nodes, Extend(path, c)) == next
      ensures nodes.Keys == old(nodes.Keys) + {Extend(path, c)}
      ensures fresh(nodes.Values - old(nodes.Values))
    {
      var ch := Slot(c);
      if obj.children[ch] == null {
        Grow(obj, path, c);
      }
      next := obj.children[ch];
    }

    /** `obj` is the node of `path`, which is being added. */
    ghost predicate Reached(obj: Trie, path: string)
      reads this, nodes.Values
    {
      Tree() && NodeAt(nodes, path) == obj && OnPaths(nodes.Keys, words, path)
    }

    /** Lines 32 to 35, with the path that is being added. */
    method Advance(obj: Trie, ghost path: string, c: char) returns (next: Trie)
      requires Reached(obj, path) && IsLetter(c)
      modifies this`nodes, this`links, obj`children
      ensures Reached(next, Extend(path, c))
      ensures fresh(nodes.Values - old(nodes.Values))
    {
      OnPathsExtend(nodes.Keys, words, path, c);
      next := Descend(obj, path, c);
    }

    /** Lines 31 to 36. */
    method Walk(word: string) returns (obj: Trie)
      requires Valid() && LowerCase(word)
      modifies this`nodes, this`links, nodes.Values`children
      ensures Reached(obj, word)
      ensures fresh(nodes.Values - old(nodes.Values))
    {
      obj := this;
      var i := 0;
      while i < |word|
        invariant i <= |word| && Reached(obj, word[..i]) && fresh(nodes.Values - old(nodes.Values))
      {
        TakeNext(word, i);
        obj := Advance(obj, word[..i], word[i]);
        i := i + 1;
      }
      TakeAll(word);
    }

    /** Line 37. */
    method MarkEnd(obj: Trie, ghost word: string)
      requires Tree() && NodeAt(nodes, word) == obj
      modifies obj`isEnd, this`words
      ensures Tree() && words == old(words) + {word}
    {
      obj.isEnd := true;
      words := words + {word};
    }

    /** Lines 29 to 38: exactly the given word is added. */
    method Insert(word: string)
      requires Valid() && LowerCase(word)
      modifies this, nodes.Values
      ensures Valid() && words == old(words) + {word}
      ensures fresh(nodes.Values - old(nodes.Values))
    {
      var obj := Walk(word);
      OnPathsEnd(nodes.Keys, words, word);
      MarkEnd(obj, word);
    }

    /** The first `k` letters of the path lead to `obj`, and there is no node one letter on. */
    ghost predicate EndsAt(path: string, k: int, obj: Trie)
      reads this
    {
      0 <= k < |path| && NodeAt(nodes, path[..k]) == obj && Extend(path[..k], path[k]) !in nodes
    }

    /** Lines 40 to 50: `*obj` is left at the last node reached. */
    method StartsWithFrom(prefix: string) returns (found: bool, obj: Trie)
      requires Valid() && LowerCase(prefix)
      ensures found <==> prefix in nodes
      ensures if found then obj == nodes[prefix] else exists k :: EndsAt(prefix, k, obj)
    {
      obj := this;
      for i := 0 to |prefix|
        invariant NodeAt(nodes, prefix[..i]) == obj
      {
        TakeNext(prefix, i);
        if obj.children[Slot(prefix[i])] == null {
          MissingPath(nodes, links, prefix, i + 1);
          assert EndsAt(prefix, i, obj);
          return false, obj;
        }
        obj := obj.children[Slot(prefix[i])];
      }
      TakeAll(prefix);
      return true, obj;
    }

    /** The stored paths are exactly the prefixes of the words, and the empty path. */
    lemma StoredPaths(p: string)
      requires Valid()
      ensures p in nodes <==> p == "" || exists w :: w in words && p <= w
    {
      if w :| w in words && p <= w {
        PrefixStored(nodes, links, p, w);
      }
    }

    /** Lines 52 to 54. */
    method StartsWith(prefix: string) returns (r: bool)
      requires Valid() && LowerCase(prefix)
      ensures r <==> prefix == "" || exists w :: w in words && prefix <= w
    {
      var obj;
      r, obj := StartsWithFrom(prefix);
      StoredPaths(prefix);
    }

    /** Lines 56 to 60. */
    method Search(word: string) returns (r: bool)
      requires Valid() && LowerCase(word)
      ensures r <==> word in words
    {
      var found, obj := StartsWithFrom(word);
      return found && obj.isEnd;
    }
  }
}
