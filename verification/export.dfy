/**
 Name of the file a rendered scene graph is saved under: a fixed prefix, the
 sentence with every space turned into an underscore, and a fixed suffix.
 */
module Export {

  const Prefix: string := "scene_graph_"
  const Suffix: string := ".png"

  /** The sentence with every ' ' replaced by '_'. */
  function ReplaceSpaces(text: string): string
  {
    if text == [] then []
    else [if text[0] == ' ' then '_' else text[0]] + ReplaceSpaces(text[1..])
  }

  /** Character by character: spaces become underscores, everything else stays. */
  lemma {:induction false} ReplaceSpacesAt(text: string)
    ensures |ReplaceSpaces(text)| == |text|
    ensures forall i :: 0 <= i < |text| ==>
              ReplaceSpaces(text)[i] == if text[i] == ' ' then '_' else text[i]
  {
    if text != [] {
      ReplaceSpacesAt(text[1..]);
      forall i | 1 <= i < |text|
        ensures ReplaceSpaces(text)[i] == if text[i] == ' ' then '_' else text[i]
      {
        assert ReplaceSpaces(text)[i] == ReplaceSpaces(text[1..])[i - 1];
      }
    }
  }

  /** The replaced text holds no space. */
  lemma {:induction false} ReplaceSpacesHasNoSpace(text: string)
    ensures ' ' !in ReplaceSpaces(text)
  {
    ReplaceSpacesAt(text);
  }

  /** A text without spaces is left as it is. */
  lemma {:induction false} ReplaceSpacesKeepsSpaceless(text: string)
    requires ' ' !in text
    ensures ReplaceSpaces(text) == text
  {
    if text != [] {
      ReplaceSpacesKeepsSpaceless(text[1..]);
      assert [text[0]] + text[1..] == text;
    }
  }

  /** Replacing twice is replacing once. */
  lemma {:induction false} ReplaceSpacesIdempotent(text: string)
    ensures ReplaceSpaces(ReplaceSpaces(text)) == ReplaceSpaces(text)
  {
    ReplaceSpacesHasNoSpace(text);
    ReplaceSpacesKeepsSpaceless(ReplaceSpaces(text));
  }

  /** File name for the graph of the sentence `text`. */
  function ExportFileName(text: string): (f: string)
    ensures |f| == |text| + 16
    ensures ' ' !in f
    ensures f[..12] == Prefix && f[|f| - 4..] == Suffix
    ensures forall i :: 0 <= i < |text| ==> f[12 + i] == if text[i] == ' ' then '_' else text[i]
  {
    ReplaceSpacesAt(text);
    ReplaceSpacesHasNoSpace(text);
    Prefix + ReplaceSpaces(text) + Suffix
  }

  /** A sentence without spaces appears verbatim between prefix and suffix. */
  lemma {:induction false} ExportFileNameSpaceless(text: string)
    requires ' ' !in text
    ensures ExportFileName(text) == Prefix + text + Suffix
  {
    ReplaceSpacesKeepsSpaceless(text);
  }

  /** Two sentences that differ only in spaces against underscores share a file name. */
  lemma ExportFileNameCollides()
    ensures ExportFileName("a b") == ExportFileName("a_b") == "scene_graph_a_b.png"
  {
  }
}
