/** The dictionary trie, core/cppjieba/Trie.hpp. */
module Trie {
  import opened Unicode

  datatype DictUnit = DictUnit(word: seq<Rune>, weight: real)

  datatype Found = NotFound | Found(u: DictUnit)

  /** A null pointer next is an empty map here. */
  class TrieNode {
    var next: map<Rune, TrieNode>
    var ptValue: Found

    constructor ()
      ensures next == map[] && ptValue == NotFound
    {
      next, ptValue := map[], NotFound;
    }
  }

  /** The dictionary after key is inserted: an empty key changes nothing, and the last
      value written for a key counts. */
  function Insert(words: map<seq<Rune>, DictUnit>, key: seq<Rune>, u: DictUnit): map<seq<Rune>, DictUnit> {
    if key == [] then words else words[key := u]
  }

  function Lookup(words: map<seq<Rune>, DictUnit>, key: seq<Rune>): Found {
    if key in words then Found(words[key]) else NotFound
  }

  function Take(s: seq<Rune>, n: nat): seq<Rune>
    requires n <= |s|
  {
    s[..n]
  }

  lemma TakeEnds(s: seq<Rune>)
    ensures Take(s, 0) == [] && Take(s, |s|) == s
  {
  }

  lemma TakeNext(s: seq<Rune>, n: nat)
    requires n < |s|
    ensures Take(s, n + 1) == Snoc(Take(s, n), s[n])
    ensures Take(s, n + 1) != [] && Take(s, n + 1)[..n] == Take(s, n) && |Take(s, n + 1)| == n + 1
  {
  }

  function Snoc(p: seq<Rune>, r: Rune): seq<Rune> { p + [r] }

  lemma SnocInjective(p: seq<Rune>, r: Rune, q: seq<Rune>, s: Rune)
    ensures Snoc(p, r) == Snoc(q, s) ==> p == q && r == s
  {
    if Snoc(p, r) == Snoc(q, s) {
      assert p == (Snoc(p, r))[..|p|] && q == (Snoc(q, s))[..|q|];
      assert r == (Snoc(p, r))[|p|] && s == (Snoc(q, s))[|q|];
    }
  }

  /** All pairs of keys and values, in this order. */
  function InsertAll(keys: seq<seq<Rune>>, units: seq<DictUnit>): map<seq<Rune>, DictUnit>
    requires |keys| == |units|
  {
    if keys == [] then map[]
    else Insert(InsertAll(keys[..|keys| - 1], units[..|keys| - 1]), keys[|keys| - 1], units[|keys| - 1])
  }

  /** The DAG lists at each position exactly the dictionary words of at most maxLen runes,
      and single runes of the dictionary in any case. */
  lemma DagIsDictionary(words: map<seq<Rune>, DictUnit>, r: seq<Rune>, i: nat, maxLen: nat, e: nat, u: DictUnit)
    requires i < |r|
    ensures (e, Found(u)) in Edges(words, r, i, maxLen)
            <==> i <= e < |r| && (e == i || e - i + 1 <= maxLen) && r[i..e + 1] in words && words[r[i..e + 1]] == u
  {
    EdgesAreWords(words, r, i, if i + maxLen < |r| then i + maxLen else |r|, e, u);
  }

  lemma InsertAllSnoc(keys: seq<seq<Rune>>, units: seq<DictUnit>, i: nat)
    requires |keys| == |units| && i < |keys|
    ensures InsertAll(keys[..i + 1], units[..i + 1]) == Insert(InsertAll(keys[..i], units[..i]), keys[i], units[i])
  {
    assert keys[..i + 1][..i] == keys[..i] && units[..i + 1][..i] == units[..i];
  }

  /** One position of the DAG: the ends of the words that begin here, and the best choice. */
  datatype Dag = Dag(runestr: RuneStr, nexts: seq<(nat, Found)>, pInfo: Found, weight: real)

  /** The dictionary words from i that end before j, other than single runes. */
  ghost function EdgesTo(words: map<seq<Rune>, DictUnit>, r: seq<Rune>, i: nat, j: nat): seq<(nat, Found)>
    requires i < |r| && j <= |r|
  {
    if j <= i + 1 then []
    else EdgesTo(words, r, i, j - 1) + if r[i..j] in words then [(j - 1, Found(words[r[i..j]]))] else []
  }

  /** All that begins at i: the single rune in any case, and the words of at most maxLen runes. */
  ghost function Edges(words: map<seq<Rune>, DictUnit>, r: seq<Rune>, i: nat, maxLen: nat): seq<(nat, Found)>
    requires i < |r|
  {
    [(i, Lookup(words, r[i..i + 1]))] + EdgesTo(words, r, i, if i + maxLen < |r| then i + maxLen else |r|)
  }

  lemma {:induction false} NoMoreEdges(words: map<seq<Rune>, DictUnit>, r: seq<Rune>, i: nat, j: nat, k: nat)
    requires i < j <= k <= |r| && forall e :: j < e <= k ==> r[i..e] !in words
    ensures EdgesTo(words, r, i, k) == EdgesTo(words, r, i, j)
    decreases k
  {
    if j < k { NoMoreEdges(words, r, i, j, k - 1); }
  }

  /** Exactly the words are listed. */
  lemma {:induction false} EdgesAreWords(words: map<seq<Rune>, DictUnit>, r: seq<Rune>, i: nat, j: nat, e: nat, u: DictUnit)
    requires i < |r| && j <= |r|
    ensures (e, Found(u)) in EdgesTo(words, r, i, j) <==> i < e < j && r[i..e + 1] in words && words[r[i..e + 1]] == u
    decreases j
  {
    if j > i + 1 { EdgesAreWords(words, r, i, j - 1, e, u); }
  }

  /** next has a child for every path one longer than p. */
  ghost predicate Children(paths: map<seq<Rune>, TrieNode>, p: seq<Rune>, next: map<Rune, TrieNode>) {
    forall r: Rune :: if r in next then Snoc(p, r) in paths && next[r] == paths[Snoc(p, r)] else Snoc(p, r) !in paths
  }

  ghost predicate Closed(paths: map<seq<Rune>, TrieNode>) {
    forall p :: p in paths && p != [] ==> p[..|p| - 1] in paths
  }

  /** Different paths lead to different nodes, all of them in repr. */
  ghost predicate Apart(paths: map<seq<Rune>, TrieNode>, repr: set<TrieNode>) {
    && (forall p :: p in paths ==> paths[p] in repr)
    && (forall p, q :: p in paths && q in paths && p != q ==> paths[p] != paths[q])
  }

  ghost predicate Covers(paths: map<seq<Rune>, TrieNode>, words: map<seq<Rune>, DictUnit>) {
    forall p :: p in words ==> p in paths
  }

  /** One more path, to a new node. */
  lemma Grows(paths: map<seq<Rune>, TrieNode>, repr: set<TrieNode>, words: map<seq<Rune>, DictUnit>,
              p: seq<Rune>, r: Rune, child: TrieNode)
    requires Apart(paths, repr) && Closed(paths) && Covers(paths, words)
    requires p in paths && Snoc(p, r) !in paths && child !in repr
    ensures Apart(paths[Snoc(p, r) := child], repr + {child}) && Closed(paths[Snoc(p, r) := child])
    ensures Covers(paths[Snoc(p, r) := child], words) && Snoc(p, r) !in words
  {
    assert (Snoc(p, r))[..|Snoc(p, r)| - 1] == p;
  }

  lemma KeepsChildren(paths: map<seq<Rune>, TrieNode>, p: seq<Rune>, r: Rune, child: TrieNode, q: seq<Rune>, next: map<Rune, TrieNode>)
    requires Children(paths, q, next) && q != p
    ensures Children(paths[Snoc(p, r) := child], q, next)
  {
    forall s: Rune ensures Snoc(q, s) != Snoc(p, r) { SnocInjective(q, s, p, r); }
  }

  lemma GainsChild(paths: map<seq<Rune>, TrieNode>, p: seq<Rune>, r: Rune, child: TrieNode, next: map<Rune, TrieNode>)
    requires Children(paths, p, next) && r !in next
    ensures Children(paths[Snoc(p, r) := child], p, next[r := child])
  {
    forall s: Rune | s != r ensures Snoc(p, s) != Snoc(p, r) { SnocInjective(p, s, p, r); }
  }

  lemma NewLeaf(paths: map<seq<Rune>, TrieNode>, p: seq<Rune>, r: Rune, child: TrieNode)
    requires Closed(paths) && Snoc(p, r) !in paths
    ensures Children(paths[Snoc(p, r) := child], Snoc(p, r), map[])
  {
    var q := Snoc(p, r);
    forall s: Rune ensures Snoc(q, s) !in paths && Snoc(q, s) != q {
      assert (Snoc(q, s))[..|Snoc(q, s)| - 1] == q;
    }
  }

  class Trie {
    const root: TrieNode
    /** The node that each path of runes leads to. */
    ghost var paths: map<seq<Rune>, TrieNode>
    ghost var words: map<seq<Rune>, DictUnit>
    ghost var repr: set<TrieNode>

    ghost predicate Valid()
      reads this, repr
    {
      && [] in paths && paths[[]] == root && [] !in words
      && Apart(paths, repr) && Closed(paths) && Covers(paths, words)
      && (forall p :: p in paths ==> Node(p))
    }

    /** The node at p has the word p's value and a child for every path one longer. */
    ghost predicate Node(p: seq<Rune>)
      requires Apart(paths, repr) && p in paths
      reads this, repr
    {
      paths[p].ptValue == Lookup(words, p) && Children(paths, p, paths[p].next)
    }

    constructor ()
      ensures Valid() && words == map[] && fresh(repr)
    {
      root := new TrieNode();
      new;
      paths := map[[] := root];
      words := map[];
      repr := {root};
    }

    /** TrieNode *nextNode = new TrieNode; ptNode->next->insert(make_pair(*citer, nextNode)); */
    method Link(node: TrieNode, ghost p: seq<Rune>, r: Rune) returns (child: TrieNode)
      modifies this, node
      ensures fresh(child) && child.next == map[] && child.ptValue == NotFound
      ensures node.next == old(node.next)[r := child] && node.ptValue == old(node.ptValue)
      ensures paths == old(paths)[Snoc(p, r) := child] && repr == old(repr) + {child} && words == old(words)
    {
      child := new TrieNode();
      node.next := node.next[r := child];
      paths := paths[Snoc(p, r) := child];
      repr := repr + {child};
    }

    /** The node at p gets a child that it does not have. */
    method AddChild(node: TrieNode, ghost p: seq<Rune>, r: Rune) returns (child: TrieNode)
      requires Valid() && p in paths && paths[p] == node && r !in node.next
      modifies this, node
      ensures Valid() && Snoc(p, r) in paths && paths[Snoc(p, r)] == child && child in repr
      ensures words == old(words) && old(repr) <= repr && fresh(repr - old(repr))
    {
      ghost var before, next, all := paths, node.next, repr;
      assert forall q :: q in before && q != p ==> before[q] != node;
      NodeHas(p, r);
      assert Snoc(p, r) != [];
      hide Children, Apart, Closed, Covers, Snoc;
      child := Link(node, p, r);
      Grows(before, all, words, p, r, child);
      forall q | q in paths ensures Node(q) {
        if q == Snoc(p, r) {
          NewLeaf(before, p, r, child);
        } else {
          assert old(Node(q));
          if q == p {
            GainsChild(before, p, r, child, next);
          } else {
            KeepsChildren(before, p, r, child, q, before[q].next);
          }
        }
      }
    }

    /** ptNode->ptValue = ptValue */
    method SetValue(node: TrieNode, ghost key: seq<Rune>, u: DictUnit)
      requires Valid() && key in paths && paths[key] == node && key != []
      modifies this, node
      ensures Valid() && words == old(words)[key := u] && repr == old(repr)
    {
      node.ptValue := Found(u);
      words := words[key := u];
      forall p | p in paths ensures Node(p) {
        assert old(Node(p));
      }
    }

    /** The child for r, made if it is missing. */
    method Descend(node: TrieNode, ghost p: seq<Rune>, r: Rune) returns (child: TrieNode)
      requires Valid() && p in paths && paths[p] == node
      modifies this, repr
      ensures Valid() && Snoc(p, r) in paths && paths[Snoc(p, r)] == child && child in repr
      ensures words == old(words) && old(repr) <= repr && fresh(repr - old(repr))
    {
      assert Node(p);
      hide Node;
      if r in node.next {
        child := node.next[r];
      } else {
        child := AddChild(node, p, r);
      }
    }

    /** InsertNode: walks down, making the nodes that are missing, and sets the value of the
        last one; the empty key changes nothing. */
    method InsertNode(key: seq<Rune>, u: DictUnit)
      requires Valid()
      modifies this, repr
      ensures Valid() && words == Insert(old(words), key, u) && old(repr) <= repr && fresh(repr - old(repr))
    {
      if key == [] { return; }
      RootPath();
      TakeEnds(key);
      hide Node, Valid, Take, Snoc;
      var node := root;
      for i := 0 to |key|
        invariant Valid() && Take(key, i) in paths && paths[Take(key, i)] == node && node in repr
        invariant words == old(words) && old(repr) <= repr && fresh(repr - old(repr))
      {
        TakeNext(key, i);
        node := Descend(node, Take(key, i), key[i]);
      }
      SetValue(node, key, u);
    }

    /** Where a node has no child, no dictionary word goes on. */
    lemma NoWordBeyond(s: seq<Rune>, n: nat)
      requires Valid() && n <= |s| && Take(s, n) !in paths
      ensures s !in words && s !in paths
      decreases |s| - n
    {
      TakeEnds(s);
      if n < |s| {
        NotFurther(s, n);
        hide Node, Valid, Take;
        NoWordBeyond(s, n + 1);
      }
    }

    lemma NotFurther(s: seq<Rune>, n: nat)
      requires Valid() && n < |s| && Take(s, n) !in paths
      ensures Take(s, n + 1) !in paths
    {
      hide Node;
      TakeNext(s, n);
    }

    /** Find: the value last written for exactly this key. */
    method Find(s: seq<Rune>) returns (v: Found)
      requires Valid()
      ensures v == Lookup(words, s)
    {
      if s == [] { return NotFound; }
      RootPath();
      TakeEnds(s);
      hide Node, Valid, Take, Snoc;
      var node := root;
      for i := 0 to |s|
        invariant Take(s, i) in paths && paths[Take(s, i)] == node
      {
        TakeNext(s, i);
        NodeHas(Take(s, i), s[i]);
        if s[i] !in node.next {
          NoWordBeyond(s, i + 1);
          return NotFound;
        }
        node := node.next[s[i]];
      }
      NodeValue(s);
      v := node.ptValue;
    }

    lemma RootPath()
      requires Valid()
      ensures [] in paths && paths[[]] == root && root in repr
    {
    }

    lemma NodeHas(p: seq<Rune>, r: Rune)
      requires Valid() && p in paths
      ensures if r in paths[p].next then Snoc(p, r) in paths && paths[p].next[r] == paths[Snoc(p, r)] else Snoc(p, r) !in paths
    {
      assert Node(p);
    }

    lemma NodeValue(p: seq<Rune>)
      requires Valid() && p in paths
      ensures paths[p].ptValue == Lookup(words, p)
    {
      assert Node(p);
    }
  
    /** CreateTrie */
    method CreateTrie(keys: seq<seq<Rune>>, units: seq<DictUnit>)
      requires Valid() && words == map[] && |keys| == |units|
      modifies this, repr
      ensures Valid() && words == InsertAll(keys, units) && fresh(repr - old(repr))
    {
      hide Node, Valid, Insert;
      for i := 0 to |keys|
        invariant Valid() && words == InsertAll(keys[..i], units[..i])
        invariant old(repr) <= repr && fresh(repr - old(repr))
      {
        InsertAllSnoc(keys, units, i);
        InsertNode(keys[i], units[i]);
      }
      assert keys[..|keys|] == keys && units[..|keys|] == units;
    }

    /** Find for a whole range: the DAG of all words of at most maxLen runes. */
    method FindDag(s: seq<RuneStr>, maxLen: nat) returns (res: array<Dag>)
      requires Valid()
      ensures fresh(res) && res.Length == |s|
      ensures forall i :: 0 <= i < |s| ==> res[i].runestr == s[i] && res[i].nexts == Edges(words, Runes(s), i, maxLen)
    {
      hide Node, Edges, Valid;
      res := new Dag[|s|](_ => Dag(RuneStr(0, 0, 0, 0, 0), [], NotFound, 0.0));
      for i := 0 to |s|
        invariant forall k :: 0 <= k < i ==> res[k].runestr == s[k] && res[k].nexts == Edges(words, Runes(s), k, maxLen)
      {
        var nexts := EdgesAt(s, i, maxLen);
        res[i] := Dag(s[i], nexts, NotFound, 0.0);
      }
    }

    method EdgesAt(s: seq<RuneStr>, i: nat, maxLen: nat) returns (nexts: seq<(nat, Found)>)
      requires Valid() && i < |s|
      ensures nexts == Edges(words, Runes(s), i, maxLen)
    {
      RootPath();
      hide Node, Valid;
      ghost var r := Runes(s);
      ghost var top := if i + maxLen < |s| then i + maxLen else |s|;
      NodeHas([], s[i].rune);
      assert Snoc([], s[i].rune) == r[i..i + 1];
      if s[i].rune !in root.next {
        if top > i { NoWordAt(r, i, top); } else { NoWordAt(r, i, i + 1); }
        return [(i, NotFound)];
      }
      var node := root.next[s[i].rune];
      NodeValue(r[i..i + 1]);
      nexts := [(i, node.ptValue)];
      hide EdgesTo;
      var more := MoreEdges(s, i, maxLen, node);
      nexts := nexts + more;
    }

    /** The inner loop: the words that go on beyond the rune at i. */
    method MoreEdges(s: seq<RuneStr>, i: nat, maxLen: nat, node0: TrieNode) returns (nexts: seq<(nat, Found)>)
      requires Valid() && i < |s| && Runes(s)[i..i + 1] in paths && paths[Runes(s)[i..i + 1]] == node0
      ensures nexts == EdgesTo(words, Runes(s), i, if i + maxLen < |s| then i + maxLen else |s|)
    {
      hide Node, Valid, Runes;
      ghost var r := Runes(s);
      ghost var top := if i + maxLen < |s| then i + maxLen else |s|;
      var node, j: nat := node0, i + 1;
      nexts := [];
      while j < |s| && j - i + 1 <= maxLen
        invariant i < j <= |s| && (j <= top || j == i + 1)
        invariant r[i..j] in paths && paths[r[i..j]] == node
        invariant nexts == EdgesTo(words, r, i, j)
      {
        NodeHas(r[i..j], s[j].rune);
        assert Snoc(r[i..j], s[j].rune) == r[i..j + 1];
        if s[j].rune !in node.next {
          NoWordFrom(r, i, j + 1, top);
          NoMoreEdges(words, r, i, j, top);
          return;
        }
        node := node.next[s[j].rune];
        NodeValue(r[i..j + 1]);
        if node.ptValue.Found? {
          nexts := nexts + [(j, node.ptValue)];
        }
        j := j + 1;
      }
    }

    /** No word begins at i and reaches j when there is no node for the runes i to j. */
    lemma NoWordFrom(r: seq<Rune>, i: nat, j: nat, top: nat)
      requires Valid() && i < j <= |r| && top <= |r| && r[i..j] !in paths
      ensures forall e :: j <= e <= top ==> r[i..e] !in words
    {
      hide Valid, Node;
      forall e | j <= e <= top ensures r[i..e] !in words {
        assert r[i..e][..j - i] == r[i..j];
        NoWordBeyond(r[i..e], j - i);
      }
    }

    lemma NoWordAt(r: seq<Rune>, i: nat, top: nat)
      requires Valid() && i < top <= |r| && r[i..i + 1] !in paths
      ensures Lookup(words, r[i..i + 1]) == NotFound && EdgesTo(words, r, i, top) == []
    {
      hide Valid, Node;
      NoWordFrom(r, i, i + 1, top);
      NoMoreEdges(words, r, i, i + 1, top);
    }
  }
}
