/**
 Display labels of the scene graph's nodes: each node is drawn with its text
 on one line and its part-of-speech tag on the next.
 */
module NodeLabels {
  import opened SceneGraph
  import SceneGraphProperties

  datatype Option<T> = None | Some(value: T)

  /** Reads a label back: the text before the first line break and the rest. */
  function SplitLabel(l: string): Option<(string, string)>
  {
    if l == [] then None
    else if l[0] == '\n' then Some(([], l[1..]))
    else match SplitLabel(l[1..])
      case None => None
      case Some(parts) => Some(([l[0]] + parts.0, parts.1))
  }

  /** Text and tag joined by a line break split back apart, if the text holds no line break. */
  lemma {:induction false} SplitLabelInverts(node: string, pos: string)
    ensures '\n' !in node ==> SplitLabel(node + "\n" + pos) == Some((node, pos))
  {
    if node != [] && '\n' !in node {
      SplitLabelInverts(node[1..], pos);
      assert (node + "\n" + pos)[1..] == node[1..] + "\n" + pos;
      assert [node[0]] + node[1..] == node;
    }
  }

  /**
   Label of one node: its text, a line break, its part-of-speech tag. The
   text and tag can be read back from it when the text holds no line break.
   */
  function Label(node: string, pos: string): (l: string)
    ensures |l| == |node| + 1 + |pos|
    ensures '\n' !in node ==> SplitLabel(l) == Some((node, pos))
  {
    SplitLabelInverts(node, pos);
    node + "\n" + pos
  }

  /** The label table: one entry per node, each reading back as that node and its tag. */
  function LabelsOf(nodes: map<string, string>): (labels: map<string, string>)
    ensures labels.Keys == nodes.Keys
    ensures forall n :: n in labels && '\n' !in n ==> SplitLabel(labels[n]) == Some((n, nodes[n]))
  {
    map n | n in nodes :: Label(n, nodes[n])
  }

  /**
   In the drawing of a sentence's graph, the label of a token's text is that
   text and the tag of the last token carrying it.
   */
  lemma LabelOfLastToken(s: Sentence, i: nat)
    requires i < |s|
    requires forall j :: i < j < |s| ==> s[j].text != s[i].text
    ensures s[i].text in LabelsOf(NodesOf(s))
    ensures LabelsOf(NodesOf(s))[s[i].text] == s[i].text + "\n" + s[i].pos
  {
    SceneGraphProperties.NodePosIsLast(s, i);
  }

  /** The drawing labels exactly the token texts of the sentence. */
  lemma {:induction false} LabelKeys(s: Sentence)
    ensures LabelsOf(NodesOf(s)).Keys == Texts(s)
  {
    NodeKeys(s);
  }
}
