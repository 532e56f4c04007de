/** A worked example: a document whose text is "alpha beta gamma" is indexed
    and then queried with a term it contains and with one it lacks. */
module Scenarios {
  import opened Results
  import opened Text
  import opened Chunker
  import opened Query

  /** A text shorter than one window becomes a single entry holding all of
      it, with id "doc_0". */
  lemma SampleChunks(text: string)
    requires text == "alpha beta gamma"
    ensures Chunks("doc", "a.pdf", text) == [Entry("doc_0", "a.pdf", text)]
  {
    assert |text| == 16 && NumChunks(16) == 1;
    assert Window(text, 0) == text;
    assert ChunkId("doc", 0) == "doc_0" by {
      assert Dec(0) == "0";
    }
  }

  lemma SampleContains(text: string, question: string)
    requires text == "alpha beta gamma" && question == "beta"
    ensures Includes(Lower(text), question)
  {
    LowerOfLowercase(text);
    assert OccursAt(text, question, 6);
    IncludesIff(text, question);
  }

  lemma SampleLacks(text: string, question: string)
    requires text == "alpha beta gamma" && question == "delta"
    ensures !Includes(Lower(text), question)
  {
    LowerOfLowercase(text);
    assert question[0] == 'd';
    assert forall i :: 0 <= i < |text| ==> text[i] != 'd';
    IncludesFirstChar(text, question);
  }

  /** A term the text contains selects its entry, and the excerpt shown
      for it is the whole text. */
  lemma SampleQueryHit(text: string, question: string)
    requires text == "alpha beta gamma" && question == "beta"
    ensures Matches([Entry("doc_0", "a.pdf", text)], Terms(question)) == [Entry("doc_0", "a.pdf", text)]
    ensures Excerpt(text) == text
  {
    assert Excerpt(text) == text by {
      assert |text| <= ExcerptLength;
    }
    assert forall k :: 0 <= k < |question| ==> !IsSpace(question[k]) && !('A' <= question[k] <= 'Z');
    SampleContains(text, question);
    OneWordQueryHit([Entry("doc_0", "a.pdf", text)], question, 0);
  }

  /** A term the text lacks selects nothing. */
  lemma SampleQueryMiss(text: string, question: string)
    requires text == "alpha beta gamma" && question == "delta"
    ensures Matches([Entry("doc_0", "a.pdf", text)], Terms(question)) == []
  {
    assert forall k :: 0 <= k < |question| ==> !IsSpace(question[k]) && !('A' <= question[k] <= 'Z');
    SampleLacks(text, question);
    OneWordQueryMiss([Entry("doc_0", "a.pdf", text)], question);
  }
}
