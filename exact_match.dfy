/**
 * The service's test of whether a corpus question is the query itself:
 * `_normalize_text` and `_are_texts_similar` of `SimilarityService`.
 * The embedding cosine used for near-identical texts is a foreign,
 * floating-point computation and enters as an oracle.
 */
module ExactMatch {
  import opened Wrappers
  import opened Text

  /** `_normalize_text`: strip, collapse every whitespace run to one space,
      lower-case. */
  function NormalizeText(s: string): string {
    Lower(CollapseSpaces(Strip(s)))
  }

  /** What a normalized text looks like. */
  predicate IsNormalForm(s: string) {
    NoEdgeSpace(s) && NoDoubleSpace(s) && PlainSpacesOnly(s) && NoUpper(s)
  }

  /** A normalized text has no whitespace at either end, no two whitespace
      characters in a row, no whitespace other than the plain space, and no
      upper-case letter. */
  lemma NormalizeTextIsNormal(s: string)
    ensures IsNormalForm(NormalizeText(s))
  {
    var t := Strip(s);
    var c := CollapseSpaces(t);
    StripEdges(s);
    CollapseSpacesShape(t);
    CollapseSpacesEnds(t);
    var n := Lower(c);
    assert NoEdgeSpace(n);
    assert NoDoubleSpace(n) by {
      forall i | 0 <= i < |n| - 1 ensures !(IsSpace(n[i]) && IsSpace(n[i + 1])) {
        assert IsSpace(n[i]) == IsSpace(c[i]) && IsSpace(n[i + 1]) == IsSpace(c[i + 1]);
      }
    }
    assert PlainSpacesOnly(n) by {
      forall i | 0 <= i < |n| && IsSpace(n[i]) ensures n[i] == ' ' {
        assert c[i] == ' ';
      }
    }
  }

  /** A text already in normal form is its own normalization. */
  lemma NormalFormIsFixed(s: string)
    requires IsNormalForm(s)
    ensures NormalizeText(s) == s
  {
    StripNoEdge(s);
    CollapseSpacesNoDouble(s);
    LowerNoUpper(s);
  }

  /** Normalizing twice is the same as normalizing once. */
  lemma NormalizeTextIdempotent(s: string)
    ensures NormalizeText(NormalizeText(s)) == NormalizeText(s)
  {
    NormalizeTextIsNormal(s);
    NormalFormIsFixed(NormalizeText(s));
  }

  /** `_normalize_text(s)` is `" ".join(s.split()).lower()`: the words of `s`,
      lower-cased and separated by single spaces. */
  lemma NormalizeTextJoinsWords(s: string)
    ensures NormalizeText(s) == Lower(JoinWithSpaces(Split(s)))
  {
    CollapseStripIsJoinedSplit(s);
  }

  /** The embedding cosine similarity of two (normalized) texts, or `None` when
      encoding them raised. */
  type CosineOracle = (string, string) -> Option<real>

  /** The threshold `find_similar` passes when it asks whether a corpus question
      is the query itself. */
  const ExactMatchThreshold: real := 0.99

  /** `_are_texts_similar`: equal normalizations are identical; otherwise the
      embedding cosine of the normalized texts decides, and when the embedding
      raises, the texts are judged by their normalizations alone. */
  predicate AreTextsSimilar(text1: string, text2: string, threshold: real, cosine: CosineOracle) {
    var n1 := NormalizeText(text1);
    var n2 := NormalizeText(text2);
    if n1 == n2 then true
    else match cosine(n1, n2)
      case Some(similarity) => similarity >= threshold
      case None => n1 == n2
  }

  /** Texts with the same normalization are judged similar whatever the
      embedding says; texts with different normalizations are judged similar
      exactly when the embedding answers with a cosine at or above the
      threshold. */
  lemma AreTextsSimilarCases(text1: string, text2: string, threshold: real, cosine: CosineOracle)
    ensures NormalizeText(text1) == NormalizeText(text2) ==> AreTextsSimilar(text1, text2, threshold, cosine)
    ensures NormalizeText(text1) != NormalizeText(text2) ==>
              (AreTextsSimilar(text1, text2, threshold, cosine) <==>
                 (cosine(NormalizeText(text1), NormalizeText(text2)).Some? &&
                  cosine(NormalizeText(text1), NormalizeText(text2)).value >= threshold))
  {
  }

  /** When the embedding raises, the test falls back to comparing
      normalizations. */
  lemma EmbeddingFailureFallsBack(text1: string, text2: string, threshold: real, cosine: CosineOracle)
    requires cosine(NormalizeText(text1), NormalizeText(text2)).None?
    ensures AreTextsSimilar(text1, text2, threshold, cosine) <==> NormalizeText(text1) == NormalizeText(text2)
  {
  }

  /** Texts made of the same words, however they are spaced, are judged
      identical whatever the embedding says. */
  lemma SameWordsAreSimilar(text1: string, text2: string, threshold: real, cosine: CosineOracle)
    requires Split(text1) == Split(text2)
    ensures AreTextsSimilar(text1, text2, threshold, cosine)
  {
    NormalizeTextJoinsWords(text1);
    NormalizeTextJoinsWords(text2);
  }

  /** A text is judged identical to its own normalization, whatever the
      embedding and the threshold. */
  lemma SimilarToOwnNormalization(text: string, threshold: real, cosine: CosineOracle)
    ensures AreTextsSimilar(text, NormalizeText(text), threshold, cosine)
    ensures AreTextsSimilar(NormalizeText(text), text, threshold, cosine)
  {
    NormalizeTextIdempotent(text);
  }
}
