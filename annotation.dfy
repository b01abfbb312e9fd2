/**
 * The shape of an annotated document, as the external annotator (a spaCy
 * pipeline) produces it. Tokenisation, sentence splitting, part-of-speech
 * tags and the stop-word/punctuation flags are the annotator's output and are
 * taken as given.
 */
module Annotation {

  /** One token: its literal text, its coarse part-of-speech tag (`pos_`) and its flags. */
  datatype Token = Token(text: string, pos: string, isStop: bool, isPunct: bool)

  /** One sentence: its tokens and its text (`Span.text`) as the annotator renders it. */
  datatype Sentence = Sentence(tokens: seq<Token>, text: string)

  /** A document is its sequence of sentences (`doc.sents`); a sentence's identity is its index. */
  type Doc = seq<Sentence>

  /** The document's tokens in order (`for token in doc`): the sentences partition them. */
  function Tokens(doc: Doc): seq<Token>
  {
    if |doc| == 0 then [] else Tokens(doc[..|doc| - 1]) + doc[|doc| - 1].tokens
  }

  /** Every token of the document belongs to one of its sentences, and vice versa. */
  lemma {:induction false} TokensOfSentences(doc: Doc)
    ensures forall t :: t in Tokens(doc) <==> exists i, j :: 0 <= i < |doc| && 0 <= j < |doc[i].tokens| && doc[i].tokens[j] == t
  {
    if |doc| > 0 {
      var init := doc[..|doc| - 1];
      TokensOfSentences(init);
      forall t ensures t in Tokens(doc) <==> exists i, j :: 0 <= i < |doc| && 0 <= j < |doc[i].tokens| && doc[i].tokens[j] == t {
        if t in Tokens(doc) {
          if t in Tokens(init) {
            var i, j :| 0 <= i < |init| && 0 <= j < |init[i].tokens| && init[i].tokens[j] == t;
            assert doc[i] == init[i];
          } else {
            var j :| 0 <= j < |doc[|doc| - 1].tokens| && doc[|doc| - 1].tokens[j] == t;
          }
        }
        if exists i, j :: 0 <= i < |doc| && 0 <= j < |doc[i].tokens| && doc[i].tokens[j] == t {
          var i, j :| 0 <= i < |doc| && 0 <= j < |doc[i].tokens| && doc[i].tokens[j] == t;
          if i < |doc| - 1 {
            assert init[i] == doc[i];
            assert t in Tokens(init);
          } else {
            assert t in doc[|doc| - 1].tokens;
          }
        }
      }
    }
  }
}
