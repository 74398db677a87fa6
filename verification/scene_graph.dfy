/**
 Graph builder of GraphPix: turns one parsed sentence into a directed
 "scene graph" whose nodes are token texts (attribute: part-of-speech tag)
 and whose edges are head -> child dependency links (attribute: the head's
 dependency tag).

 The graph container is a pair of maps: a node table keyed by text and an
 edge table keyed by (head text, child text). Inserting under an existing
 key overwrites its attribute, so the last write wins.
 */
module SceneGraph {

  /** One token of a parsed sentence. `children` are positions in the sentence. */
  datatype Token = Token(text: string, pos: string, dep: string, children: seq<nat>)

  type Sentence = seq<Token>

  type EdgeKey = (string, string)

  /** The directed graph: node attribute `pos`, edge attribute `dep`. */
  datatype Graph = Graph(nodes: map<string, string>, edges: map<EdgeKey, string>)

  /** Every child of `t` is a position below `n`. */
  predicate ChildrenBelow(t: Token, n: nat)
  {
    forall j :: 0 <= j < |t.children| ==> t.children[j] < n
  }

  /** A parse whose child links all point inside the sentence. */
  predicate WellFormed(s: Sentence)
  {
    forall i :: 0 <= i < |s| ==> ChildrenBelow(s[i], |s|)
  }

  /** The set of surface texts of the tokens of `s`. */
  function Texts(s: Sentence): set<string>
  {
    set i | 0 <= i < |s| :: s[i].text
  }

  /** Every edge of `g` runs between two of its nodes. */
  predicate EndpointsAreNodes(g: Graph)
  {
    forall e :: e in g.edges ==> e.0 in g.nodes && e.1 in g.nodes
  }

  // ---------------------------------------------------------------------
  // Specification: the two passes as left folds, in iteration order.
  // ---------------------------------------------------------------------

  /** Node table after inserting the tokens of `s` in order. */
  function NodesOf(s: Sentence): map<string, string>
    decreases |s|
  {
    if s == [] then map[]
    else NodesOf(s[..|s| - 1])[s[|s| - 1].text := s[|s| - 1].pos]
  }

  /** Edge table `e` after inserting the edges of the first `k` children of head `t`. */
  function HeadEdges(s: Sentence, t: Token, k: nat, e: map<EdgeKey, string>): map<EdgeKey, string>
    requires ChildrenBelow(t, |s|) && k <= |t.children|
  {
    if k == 0 then e
    else HeadEdges(s, t, k - 1, e)[(t.text, s[t.children[k - 1]].text) := t.dep]
  }

  /** Edge table after the edge pass has handled the first `n` tokens of `s`. */
  function EdgesUpTo(s: Sentence, n: nat): map<EdgeKey, string>
    requires WellFormed(s) && n <= |s|
  {
    if n == 0 then map[]
    else HeadEdges(s, s[n - 1], |s[n - 1].children|, EdgesUpTo(s, n - 1))
  }

  /** Edge table after the whole edge pass. */
  function EdgesOf(s: Sentence): map<EdgeKey, string>
    requires WellFormed(s)
  {
    EdgesUpTo(s, |s|)
  }

  /** Text of the `j`-th child of the token at position `i`. */
  function ChildText(s: Sentence, i: nat, j: nat): string
    requires WellFormed(s) && i < |s| && j < |s[i].children|
  {
    s[s[i].children[j]].text
  }

  // ---------------------------------------------------------------------
  // The builder itself.
  // ---------------------------------------------------------------------

  /**
   The node pass inserts one node per token; the edge pass then inserts one
   edge per (token, child) pair, attributed with the token's own dependency tag.
   */
  method BuildSceneGraph(sentence: Sentence) returns (g: Graph)
    requires WellFormed(sentence)
    ensures g.nodes == NodesOf(sentence)
    ensures g.edges == EdgesOf(sentence)
    ensures EndpointsAreNodes(g)
    ensures sentence == [] ==> g.nodes == map[] && g.edges == map[]
  {
    var nodes: map<string, string> := map[];
    var i := 0;
    while i < |sentence|
      invariant 0 <= i <= |sentence|
      invariant nodes == NodesOf(sentence[..i])
    {
      var token := sentence[i];
      assert sentence[..i + 1][..i] == sentence[..i];
      nodes := nodes[token.text := token.pos];
      i := i + 1;
    }
    assert sentence[..|sentence|] == sentence;

    var edges: map<EdgeKey, string> := map[];
    i := 0;
    while i < |sentence|
      invariant 0 <= i <= |sentence|
      invariant edges == EdgesUpTo(sentence, i)
    {
      var token := sentence[i];
      var k := 0;
      while k < |token.children|
        invariant 0 <= k <= |token.children|
        invariant edges == HeadEdges(sentence, token, k, EdgesUpTo(sentence, i))
      {
        var child := sentence[token.children[k]];
        edges := edges[(token.text, child.text) := token.dep];
        k := k + 1;
      }
      i := i + 1;
    }

    g := Graph(nodes, edges);
    EdgeEndpoints(sentence);
  }

  // ---------------------------------------------------------------------
  // Lemmas the builder's own contract relies on.
  // ---------------------------------------------------------------------

  /** The node keys are exactly the texts of the tokens. */
  lemma {:induction false} NodeKeys(s: Sentence)
    ensures NodesOf(s).Keys == Texts(s)
    decreases |s|
  {
    if s != [] {
      var p := s[..|s| - 1];
      NodeKeys(p);
      assert Texts(s) == Texts(p) + {s[|s| - 1].text} by {
        forall x | x in Texts(s) ensures x in Texts(p) + {s[|s| - 1].text} {
          var i :| 0 <= i < |s| && s[i].text == x;
          if i < |s| - 1 { assert p[i].text == x; }
        }
        forall x | x in Texts(p) ensures x in Texts(s) {
          var i :| 0 <= i < |p| && p[i].text == x;
          assert s[i].text == x;
        }
      }
    }
  }

  /** Head `t` holds, among its first `k` children, one whose text is `b`. */
  predicate HasChildTextBefore(s: Sentence, t: Token, k: nat, b: string)
    requires ChildrenBelow(t, |s|) && k <= |t.children|
  {
    exists j :: 0 <= j < k && s[t.children[j]].text == b
  }

  /** The token at position `i` is a head that yields edge key `key`. */
  predicate Yields(s: Sentence, i: nat, key: EdgeKey)
    requires WellFormed(s) && i < |s|
  {
    s[i].text == key.0 && HasChildTextBefore(s, s[i], |s[i].children|, key.1)
  }

  /** Keys of one head's edges: what was there plus (head text, child text) per child. */
  lemma {:induction false} HeadEdgesKeys(s: Sentence, t: Token, k: nat, e: map<EdgeKey, string>, key: EdgeKey)
    requires ChildrenBelow(t, |s|) && k <= |t.children|
    ensures key in HeadEdges(s, t, k, e) <==>
              key in e || (key.0 == t.text && HasChildTextBefore(s, t, k, key.1))
  {
    if k > 0 {
      HeadEdgesKeys(s, t, k - 1, e, key);
      if key.0 == t.text && HasChildTextBefore(s, t, k, key.1) && !HasChildTextBefore(s, t, k - 1, key.1) {
        var j :| 0 <= j < k && s[t.children[j]].text == key.1;
        assert j == k - 1;
      }
    }
  }

  /** An edge key is present after `n` heads exactly when one of those heads yields it. */
  lemma {:induction false} EdgeKeysUpTo(s: Sentence, n: nat, key: EdgeKey)
    requires WellFormed(s) && n <= |s|
    ensures key in EdgesUpTo(s, n) <==> exists i :: 0 <= i < n && Yields(s, i, key)
  {
    if n > 0 {
      EdgeKeysUpTo(s, n - 1, key);
      HeadEdgesKeys(s, s[n - 1], |s[n - 1].children|, EdgesUpTo(s, n - 1), key);
      if key in EdgesUpTo(s, n) && !Yields(s, n - 1, key) {
        var i :| 0 <= i < n - 1 && Yields(s, i, key);
      }
    }
  }

  /** Every edge endpoint is the text of some token, hence already a node. */
  lemma EdgeEndpoints(s: Sentence)
    requires WellFormed(s)
    ensures EndpointsAreNodes(Graph(NodesOf(s), EdgesOf(s)))
  {
    NodeKeys(s);
    forall key | key in EdgesOf(s)
      ensures key.0 in Texts(s) && key.1 in Texts(s)
    {
      EdgeKeysUpTo(s, |s|, key);
      var i :| 0 <= i < |s| && Yields(s, i, key);
      var j :| 0 <= j < |s[i].children| && s[s[i].children[j]].text == key.1;
      assert s[i].children[j] < |s|;
    }
  }
}
