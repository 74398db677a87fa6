/**
 What the graph builder promises about the graph it returns: which nodes and
 edges exist, which attribute wins when texts collide, and how many of each
 there are.
 */
module SceneGraphProperties {
  import opened SceneGraph

  // ---------------------------------------------------------------------
  // Nodes
  // ---------------------------------------------------------------------

  /**
   A token that is the last one in sentence order with its text decides that
   node's part-of-speech attribute.
   */
  lemma {:induction false} NodePosIsLast(s: Sentence, i: nat)
    requires i < |s|
    requires forall j :: i < j < |s| ==> s[j].text != s[i].text
    ensures s[i].text in NodesOf(s) && NodesOf(s)[s[i].text] == s[i].pos
    decreases |s|
  {
    if i < |s| - 1 {
      var p := s[..|s| - 1];
      NodePosIsLast(p, i);
    }
  }

  /** Each node key is the text of a token that is the last one carrying that text. */
  lemma {:induction false} NodeHasLastToken(s: Sentence, x: string)
    requires x in NodesOf(s)
    ensures exists i :: 0 <= i < |s| && s[i].text == x && NodesOf(s)[x] == s[i].pos &&
                        forall j :: i < j < |s| ==> s[j].text != x
    decreases |s|
  {
    var last := |s| - 1;
    if s[last].text == x {
      assert s[last].text == x && NodesOf(s)[x] == s[last].pos;
    } else {
      var p := s[..last];
      NodeHasLastToken(p, x);
      var i :| 0 <= i < |p| && p[i].text == x && NodesOf(p)[x] == p[i].pos &&
               forall j :: i < j < |p| ==> p[j].text != x;
      assert s[i] == p[i];
      assert forall j :: i < j < |s| ==> s[j].text != x by {
        forall j | i < j < |s| ensures s[j].text != x {
          if j < last { assert s[j] == p[j]; }
        }
      }
    }
  }

  /** No two tokens of the sentence share a surface text. */
  predicate DistinctTexts(s: Sentence)
  {
    forall i, j :: 0 <= i < j < |s| ==> s[i].text != s[j].text
  }

  /** There are at most as many nodes as tokens, and exactly as many when no texts collide. */
  lemma {:induction false} NodeCount(s: Sentence)
    ensures |NodesOf(s)| <= |s|
    ensures DistinctTexts(s) ==> |NodesOf(s)| == |s|
    decreases |s|
  {
    if s != [] {
      var p := s[..|s| - 1];
      var last := s[|s| - 1];
      NodeCount(p);
      NodeKeys(p);
      var m := NodesOf(p);
      assert NodesOf(s).Keys == m.Keys + {last.text};
      if DistinctTexts(s) {
        assert DistinctTexts(p) by {
          forall i, j | 0 <= i < j < |p| ensures p[i].text != p[j].text {
            assert p[i] == s[i] && p[j] == s[j];
          }
        }
        forall i | 0 <= i < |p| ensures p[i].text != last.text {
          assert p[i] == s[i];
        }
        assert last.text !in Texts(p);
      }
    }
  }

  // ---------------------------------------------------------------------
  // Edges
  // ---------------------------------------------------------------------

  /** Every (token, child) pair of the parse is an edge of the graph. */
  lemma EdgeForEveryChild(s: Sentence, i: nat, j: nat)
    requires WellFormed(s) && i < |s| && j < |s[i].children|
    ensures (s[i].text, ChildText(s, i, j)) in EdgesOf(s)
  {
    var key := (s[i].text, ChildText(s, i, j));
    assert Yields(s, i, key);
    EdgeKeysUpTo(s, |s|, key);
  }

  /** Every edge comes from a token and one of its children. */
  lemma EdgeFromSomeChild(s: Sentence, key: EdgeKey)
    requires WellFormed(s) && key in EdgesOf(s)
    ensures exists i, j :: 0 <= i < |s| && 0 <= j < |s[i].children| &&
                           key == (s[i].text, ChildText(s, i, j))
  {
    EdgeKeysUpTo(s, |s|, key);
    var i :| 0 <= i < |s| && Yields(s, i, key);
    var j :| 0 <= j < |s[i].children| && s[s[i].children[j]].text == key.1;
    assert key == (s[i].text, ChildText(s, i, j));
  }

  /** When a head and one of its children share a text the graph has a self-loop. */
  lemma SelfLoopOnSharedText(s: Sentence, i: nat, j: nat)
    requires WellFormed(s) && i < |s| && j < |s[i].children|
    requires ChildText(s, i, j) == s[i].text
    ensures (s[i].text, s[i].text) in EdgesOf(s)
  {
    EdgeForEveryChild(s, i, j);
  }

  /** A head that yields `key` among its first `k` children sets that edge to its own tag. */
  lemma {:induction false} HeadEdgesSet(s: Sentence, t: Token, k: nat, e: map<EdgeKey, string>, key: EdgeKey)
    requires ChildrenBelow(t, |s|) && k <= |t.children|
    requires key.0 == t.text && HasChildTextBefore(s, t, k, key.1)
    ensures key in HeadEdges(s, t, k, e) && HeadEdges(s, t, k, e)[key] == t.dep
  {
    if s[t.children[k - 1]].text != key.1 {
      var j :| 0 <= j < k && s[t.children[j]].text == key.1;
      assert j < k - 1;
      HeadEdgesSet(s, t, k - 1, e, key);
    }
  }

  /** A head that does not yield `key` leaves that edge as it was. */
  lemma {:induction false} HeadEdgesKeep(s: Sentence, t: Token, k: nat, e: map<EdgeKey, string>, key: EdgeKey)
    requires ChildrenBelow(t, |s|) && k <= |t.children|
    requires !(key.0 == t.text && HasChildTextBefore(s, t, k, key.1))
    requires key in e
    ensures key in HeadEdges(s, t, k, e) && HeadEdges(s, t, k, e)[key] == e[key]
  {
    if k > 0 {
      if key.0 == t.text {
        assert forall j :: 0 <= j < k ==> s[t.children[j]].text != key.1;
      }
      HeadEdgesKeep(s, t, k - 1, e, key);
    }
  }

  /**
   An edge's dependency tag is that of the last head, in sentence order, that
   yields its (head text, child text) key: the head's own tag, not the child's.
   */
  lemma {:induction false} EdgeDepIsLastHead(s: Sentence, i: nat, key: EdgeKey)
    requires WellFormed(s) && i < |s| && Yields(s, i, key)
    requires forall i' :: i < i' < |s| ==> !Yields(s, i', key)
    ensures key in EdgesOf(s) && EdgesOf(s)[key] == s[i].dep
  {
    EdgeDepUpTo(s, i, |s|, key);
  }

  lemma {:induction false} EdgeDepUpTo(s: Sentence, i: nat, n: nat, key: EdgeKey)
    requires WellFormed(s) && i < n <= |s| && Yields(s, i, key)
    requires forall i' :: i < i' < n ==> !Yields(s, i', key)
    ensures key in EdgesUpTo(s, n) && EdgesUpTo(s, n)[key] == s[i].dep
  {
    var t := s[n - 1];
    if n - 1 == i {
      HeadEdgesSet(s, t, |t.children|, EdgesUpTo(s, n - 1), key);
    } else {
      EdgeDepUpTo(s, i, n - 1, key);
      assert !Yields(s, n - 1, key);
      HeadEdgesKeep(s, t, |t.children|, EdgesUpTo(s, n - 1), key);
    }
  }

  /** Among the first `n` tokens, the last head that yields `key`. */
  lemma {:induction false} LastYieldingHead(s: Sentence, n: nat, key: EdgeKey) returns (i: nat)
    requires WellFormed(s) && n <= |s|
    requires exists i :: 0 <= i < n && Yields(s, i, key)
    ensures i < n && Yields(s, i, key)
    ensures forall i' :: i < i' < n ==> !Yields(s, i', key)
  {
    if Yields(s, n - 1, key) {
      i := n - 1;
    } else {
      i := LastYieldingHead(s, n - 1, key);
    }
  }

  /** Every edge has a last head yielding its key, and that head supplies its dependency tag. */
  lemma EdgeHasLastHead(s: Sentence, key: EdgeKey)
    requires WellFormed(s) && key in EdgesOf(s)
    ensures exists i :: 0 <= i < |s| && Yields(s, i, key) && EdgesOf(s)[key] == s[i].dep &&
                        forall i' :: i < i' < |s| ==> !Yields(s, i', key)
  {
    EdgeKeysUpTo(s, |s|, key);
    var i := LastYieldingHead(s, |s|, key);
    EdgeDepIsLastHead(s, i, key);
  }

  // ---------------------------------------------------------------------
  // Edge count
  // ---------------------------------------------------------------------

  /** Number of (token, child) pairs among the first `n` tokens. */
  function ChildPairs(s: Sentence, n: nat): nat
    requires n <= |s|
  {
    if n == 0 then 0 else ChildPairs(s, n - 1) + |s[n - 1].children|
  }

  /** No token lists the same child position twice. */
  predicate DistinctChildren(s: Sentence)
  {
    forall i :: 0 <= i < |s| ==>
      forall j, j' :: 0 <= j < j' < |s[i].children| ==> s[i].children[j] != s[i].children[j']
  }

  lemma {:induction false} HeadEdgesCount(s: Sentence, t: Token, k: nat, e: map<EdgeKey, string>)
    requires ChildrenBelow(t, |s|) && k <= |t.children|
    ensures |HeadEdges(s, t, k, e)| <= |e| + k
  {
    if k > 0 {
      HeadEdgesCount(s, t, k - 1, e);
      var m := HeadEdges(s, t, k - 1, e);
      var key := (t.text, s[t.children[k - 1]].text);
      assert HeadEdges(s, t, k, e).Keys == m.Keys + {key};
    }
  }

  /** A head whose text is new and whose children have distinct texts adds one edge per child. */
  lemma {:induction false} HeadEdgesCountFresh(s: Sentence, t: Token, k: nat, e: map<EdgeKey, string>)
    requires ChildrenBelow(t, |s|) && k <= |t.children|
    requires forall key :: key in e ==> key.0 != t.text
    requires forall j, j' :: 0 <= j < j' < k ==> s[t.children[j]].text != s[t.children[j']].text
    ensures |HeadEdges(s, t, k, e)| == |e| + k
  {
    if k > 0 {
      HeadEdgesCountFresh(s, t, k - 1, e);
      var m := HeadEdges(s, t, k - 1, e);
      var key := (t.text, s[t.children[k - 1]].text);
      HeadEdgesKeys(s, t, k - 1, e, key);
      assert !HasChildTextBefore(s, t, k - 1, key.1);
      assert key !in m;
      assert HeadEdges(s, t, k, e).Keys == m.Keys + {key};
    }
  }

  /**
   There are at most as many edges as (token, child) pairs, and exactly as many
   when no texts collide and no token lists a child twice.
   */
  lemma {:induction false} EdgeCountUpTo(s: Sentence, n: nat)
    requires WellFormed(s) && n <= |s|
    ensures |EdgesUpTo(s, n)| <= ChildPairs(s, n)
    ensures DistinctTexts(s) && DistinctChildren(s) ==> |EdgesUpTo(s, n)| == ChildPairs(s, n)
  {
    if n > 0 {
      var t := s[n - 1];
      var e := EdgesUpTo(s, n - 1);
      EdgeCountUpTo(s, n - 1);
      HeadEdgesCount(s, t, |t.children|, e);
      if DistinctTexts(s) && DistinctChildren(s) {
        forall key | key in e ensures key.0 != t.text {
          EdgeKeysUpTo(s, n - 1, key);
          var i :| 0 <= i < n - 1 && Yields(s, i, key);
        }
        forall j, j' | 0 <= j < j' < |t.children|
          ensures s[t.children[j]].text != s[t.children[j']].text
        {
          assert t.children[j] != t.children[j'];
        }
        HeadEdgesCountFresh(s, t, |t.children|, e);
      }
    }
  }

  lemma EdgeCount(s: Sentence)
    requires WellFormed(s)
    ensures |EdgesOf(s)| <= ChildPairs(s, |s|)
    ensures DistinctTexts(s) && DistinctChildren(s) ==> |EdgesOf(s)| == ChildPairs(s, |s|)
  {
    EdgeCountUpTo(s, |s|);
  }

  // ---------------------------------------------------------------------
  // Worked example
  // ---------------------------------------------------------------------

  /** A hand-written dependency parse of "The cat sat on the mat." */
  function CatSatOnTheMat(): (s: Sentence)
    ensures WellFormed(s) && DistinctTexts(s)
  {
    [ Token("The", "DET", "det", []),
      Token("cat", "NOUN", "nsubj", [0]),
      Token("sat", "VERB", "ROOT", [1, 3, 6]),
      Token("on", "ADP", "prep", [5]),
      Token("the", "DET", "det", []),
      Token("mat", "NOUN", "pobj", [4]),
      Token(".", "PUNCT", "punct", []) ]
  }

  /** The verb is a node tagged VERB. */
  lemma CatSatOnTheMatVerb()
    ensures "sat" in NodesOf(CatSatOnTheMat()) && NodesOf(CatSatOnTheMat())["sat"] == "VERB"
  {
    var s := CatSatOnTheMat();
    NodePosIsLast(s, 2);
  }

  /** The edge from "sat" to "cat" carries the head's tag "ROOT", not the subject tag of "cat". */
  lemma CatSatOnTheMatEdge()
    ensures ("sat", "cat") in EdgesOf(CatSatOnTheMat())
    ensures EdgesOf(CatSatOnTheMat())[("sat", "cat")] == "ROOT"
  {
    var s := CatSatOnTheMat();
    var key := ("sat", "cat");
    assert ChildText(s, 2, 0) == "cat";
    assert Yields(s, 2, key);
    forall i' | 2 < i' < |s| ensures !Yields(s, i', key) {
      assert s[i'].text != "sat";
    }
    EdgeDepIsLastHead(s, 2, key);
  }

  /** Seven distinct words give seven nodes; six child links give six edges. */
  lemma CatSatOnTheMatCounts()
    ensures |NodesOf(CatSatOnTheMat())| == 7 && |EdgesOf(CatSatOnTheMat())| == 6
  {
    var s := CatSatOnTheMat();
    NodeCount(s);
    EdgeCount(s);
    forall i | 0 <= i < |s|
      ensures forall j, j' :: 0 <= j < j' < |s[i].children| ==> s[i].children[j] != s[i].children[j']
    {
      assert i == 2 || |s[i].children| <= 1;
    }
    assert ChildPairs(s, 3) == 4;
    assert ChildPairs(s, 7) == 6;
  }

  /** A hand-written parse of "the cat the cat" in which both "cat" tokens govern a "the". */
  function TheCatTheCat(): (s: Sentence)
    ensures WellFormed(s) && !DistinctTexts(s) && ChildPairs(s, |s|) == 2
  {
    var s := [ Token("the", "DET", "det", []),
               Token("cat", "NOUN", "nsubj", [0]),
               Token("the", "DET", "det", []),
               Token("cat", "NOUN", "dobj", [2]) ];
    assert s[0].text == s[2].text;
    assert ChildPairs(s, 2) == 1;
    assert ChildPairs(s, 4) == 2;
    s
  }

  /**
   Repeated texts collapse edges: two head/child links give one edge, which
   keeps the tag of the later head.
   */
  lemma TheCatTheCatEdges()
    ensures EdgesOf(TheCatTheCat()) == map[("cat", "the") := "dobj"]
    ensures |EdgesOf(TheCatTheCat())| == 1 < ChildPairs(TheCatTheCat(), |TheCatTheCat()|)
  {
    var s := TheCatTheCat();
    var e1 := EdgesUpTo(s, 1);
    assert e1 == map[];
    var e2 := EdgesUpTo(s, 2);
    assert e2 == map[("cat", "the") := "nsubj"];
    assert EdgesUpTo(s, 3) == e2;
    assert EdgesUpTo(s, 4) == map[("cat", "the") := "dobj"];
  }
}
