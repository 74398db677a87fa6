# GraphPix scene graph: a verified model

GraphPix reads English text, parses each sentence into a dependency tree and
draws the tree as a directed "scene graph". This project models the
transformation part of that pipeline in Dafny and proves what it does:

- **Graph builder** (`SceneGraph`, `scene_graph.dfy`). It turns one parsed
  sentence into a graph. A sentence is a sequence of tokens. Each token has
  a surface text, a part-of-speech tag, a dependency tag and the positions of
  its children. The graph is a node table keyed by token text, holding the
  `pos` attribute. It also has an edge table keyed by (head text, child text),
  holding the `dep` attribute. `BuildSceneGraph` is the builder. A node loop
  comes first, then an edge loop with a nested loop over each token's
  children. Inserting under an existing key overwrites, as the directed-graph
  container does. The method is proved equal to two left-fold
  specifications, `NodesOf` and `EdgesOf`.
- **Properties of the graph** (`SceneGraphProperties`,
  `scene_graph_properties.dfy`). These cover which nodes and edges exist,
  which attribute wins when texts collide, and the node and edge counts. Two
  worked examples take hand-written dependency parses as input: one of "The
  cat sat on the mat." and one of "the cat the cat", where repeated texts
  collapse edges.
- **Node labels** (`NodeLabels`, `node_labels.dfy`). Each node is drawn as
  its text, a line break, then its tag. A label can be read back when the
  text has no line break.
- **Export file name** (`Export`, `export.dfy`). The name is
  `scene_graph_` + the sentence with spaces turned into underscores + `.png`.

Behaviour worth noting:

- Self-loops are possible. A head and its child with the same text give an
  edge from that text to itself (`SelfLoopOnSharedText`).
- An edge carries the head's dependency tag, not the child's. In "The cat sat
  on the mat." the edge from "sat" to "cat" is labelled `ROOT`, not the
  subject tag (`CatSatOnTheMatEdge`).
- The edge count equals the number of (head, child) links whenever no two
  tokens share a text and no token lists a child twice (`EdgeCount`). With
  repeated texts it can be smaller: in "the cat the cat" two links give one
  edge (`TheCatTheCatEdges`).

## Model

| member | source | states |
|---|---|---|
| SceneGraph.BuildSceneGraph | Scene_Graph.py:15-29 | The node loop and the nested edge loop produce exactly the fold specifications `NodesOf` and `EdgesOf`. Every edge runs between existing nodes. An empty sentence gives an empty graph. |
| SceneGraph.NodeKeys | Scene_Graph.py:20-22 | The node keys are exactly the set of token texts. |
| SceneGraph.EdgeKeysUpTo | Scene_Graph.py:25-27 | After the first n tokens, a key (a, b) is an edge exactly when one of those tokens has text a and a child with text b. |
| SceneGraph.EdgeEndpoints | Scene_Graph.py:20-27 | Both ends of every edge are already nodes, so the edge pass adds no node and changes no `pos`. |
| SceneGraphProperties.NodePosIsLast | Scene_Graph.py:20-22 | A node's `pos` is that of the last token, in sentence order, with that text. |
| SceneGraphProperties.NodeHasLastToken | Scene_Graph.py:20-22 | Every node has a last token with its text, and that token supplies its `pos`. |
| SceneGraphProperties.NodeCount | Scene_Graph.py:20-22 | There are at most as many nodes as tokens, and exactly as many when all texts are distinct. |
| SceneGraphProperties.EdgeForEveryChild | Scene_Graph.py:25-27 | Every (token, child) pair yields the edge (token text, child text). |
| SceneGraphProperties.EdgeFromSomeChild | Scene_Graph.py:25-27 | Every edge key is (text of some token, text of one of its children). |
| SceneGraphProperties.SelfLoopOnSharedText | Scene_Graph.py:25-27 | A head and a child with the same text produce a self-loop. |
| SceneGraphProperties.EdgeDepIsLastHead | Scene_Graph.py:25-27 | An edge's `dep` is the dependency tag of the last head, in iteration order, that yields its key. This is the head's tag, not the child's. |
| SceneGraphProperties.EdgeHasLastHead | Scene_Graph.py:25-27 | Every edge has a last head, in iteration order, that yields its key, and the edge's `dep` is that head's tag. |
| SceneGraphProperties.EdgeCount | Scene_Graph.py:25-27 | There are at most as many edges as (token, child) pairs. There are exactly as many when texts are distinct and no token lists a child twice. |
| SceneGraphProperties.CatSatOnTheMat | Scene_Graph.py:15-29 | The hand-written example parse is well formed and has distinct texts. |
| SceneGraphProperties.CatSatOnTheMatVerb | Scene_Graph.py:20-22 | In the example, "sat" is a node tagged VERB. |
| SceneGraphProperties.CatSatOnTheMatEdge | Scene_Graph.py:25-27 | In the example, the edge "sat" to "cat" exists and carries the head's tag ROOT. |
| SceneGraphProperties.CatSatOnTheMatCounts | Scene_Graph.py:15-29 | The example graph has 7 nodes and 6 edges. |
| SceneGraphProperties.TheCatTheCat | Scene_Graph.py:15-29 | The hand-written parse of "the cat the cat" is well formed, repeats a text and has two head/child links. |
| SceneGraphProperties.TheCatTheCatEdges | Scene_Graph.py:25-27 | Its two links collapse into the single edge ("cat", "the"), which keeps the later head's tag `dobj`, so there are fewer edges than links. |
| NodeLabels.Label | Scene_Graph.py:38 | A label is one character longer than text and tag together. When the text has no line break, splitting the label at its first line break gives back the text and the tag. |
| NodeLabels.LabelsOf | Scene_Graph.py:38 | The label table has exactly the nodes as keys. Each entry whose node text has no line break reads back as that node and its tag. |
| NodeLabels.SplitLabelInverts | Scene_Graph.py:38 | If the text has no line break, splitting text + line break + tag at the first line break gives back the text and the tag. |
| NodeLabels.LabelOfLastToken | Scene_Graph.py:38 | In a sentence's drawing, a text's label is that text, a line break, and the tag of the last token with that text. |
| NodeLabels.LabelKeys | Scene_Graph.py:38 | The drawing labels exactly the token texts. |
| Export.ReplaceSpacesAt | Scene_Graph.py:85 | Replacing keeps the length. Each space becomes an underscore, and every other character stays. |
| Export.ReplaceSpacesHasNoSpace | Scene_Graph.py:85 | The replaced text contains no space. |
| Export.ReplaceSpacesKeepsSpaceless | Scene_Graph.py:85 | A text without spaces is unchanged. |
| Export.ReplaceSpacesIdempotent | Scene_Graph.py:85 | Replacing twice gives the same result as replacing once. |
| Export.ExportFileName | Scene_Graph.py:85 | The file name has length text + 16 and contains no space. It starts with `scene_graph_` and ends with `.png`. Between them, position by position, is the text with spaces made underscores. |
| Export.ExportFileNameSpaceless | Scene_Graph.py:85 | A sentence without spaces appears verbatim between prefix and suffix. |
| Export.ExportFileNameCollides | Scene_Graph.py:85 | "a b" and "a_b" share the file name `scene_graph_a_b.png`, so one export overwrites the other. |

## Left out

- Loading the parser and parsing text (Scene_Graph.py:9-13) are left out because the parser is an opaque statistical model. The builder takes the token sequence as input. It requires every child position to lie inside the sentence, which the parser guarantees.
- The directed-graph container also creates a missing endpoint node, with no attributes, when an edge is added. Under the well-formedness precondition this never happens (`EdgeEndpoints`), so it is not modelled. For the same reason, the missing-`pos` lookup failure at Scene_Graph.py:38 cannot occur.
- Layout, drawing and PNG rendering (Scene_Graph.py:31-50, apart from line 38) are left out because they are floating-point, randomised and done by a foreign plotting library.
- The web page in `main` (Scene_Graph.py:51-80) is left out because it consists of UI widgets, button callbacks and session state.
- Writing the file and showing the success message (Scene_Graph.py:86-89) are left out because they are filesystem I/O and UI output. Only the file name is modelled.
- Strings are sequences of characters. The replace step matches only the ASCII space character, as the code does.
