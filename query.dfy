/** The `/api/chat` handler: tokenise the question, keep the index entries
    whose lower-cased text contains any term, return the first five with
    400-character excerpts and a summary sentence giving their number. */
module Query {
  import opened Results
  import opened Text
  import opened Chunker

  const MaxMatches: nat := 5
  const ExcerptLength: nat := 400
  const QuestionRequired: string := "question required"
  const AnswerPrefix: string := "Encontrei "
  const AnswerSuffix: string := " trecho(s). Veja os excertos e pergunte algo mais espec\U{00ED}fico."

  datatype ContextItem = ContextItem(filename: string, excerpt: string)

  /** The JSON body and status the handler sends. */
  datatype ChatResponse =
    | Answered(answer: string, context: seq<ContextItem>)
    | ChatFailed(status: nat, error: string)

  /** The search terms: the lower-cased question's white-space-separated words. */
  function Terms(question: string): seq<string>
  {
    Tokens(Lower(question))
  }

  /** Some term is a substring of the entry's lower-cased text. */
  predicate Relevant(e: Entry, terms: seq<string>)
  {
    exists w | w in terms :: Includes(Lower(e.chunk), w)
  }

  /** The relevant entries, in index order. */
  function Candidates(entries: seq<Entry>, terms: seq<string>): seq<Entry>
  {
    if entries == [] then []
    else
      var last := entries[|entries| - 1];
      Candidates(entries[..|entries| - 1], terms) + (if Relevant(last, terms) then [last] else [])
  }

  /** The first five candidates (all of them when there are fewer). */
  function Matches(entries: seq<Entry>, terms: seq<string>): seq<Entry>
  {
    var cs := Candidates(entries, terms);
    cs[..Min(MaxMatches, |cs|)]
  }

  /** What is shown of a matched chunk: at most its first 400 characters. */
  function Excerpt(chunk: string): string
  {
    Slice(chunk, 0, ExcerptLength)
  }

  function AnswerText(n: nat): string
  {
    AnswerPrefix + Dec(n) + AnswerSuffix
  }

  /** The whole handler, over the index as it is when the request arrives;
      `question` is `None` when the body has no such field. */
  function Chat(entries: seq<Entry>, question: Option<string>): ChatResponse
  {
    if question.None? || question.value == "" then ChatFailed(400, QuestionRequired)
    else
      var ms := Matches(entries, Terms(question.value));
      Answered(AnswerText(|ms|),
               seq(|ms|, j requires 0 <= j < |ms| => ContextItem(ms[j].filename, Excerpt(ms[j].chunk))))
  }

  // ---------------------------------------------------------------------------
  // Properties
  // ---------------------------------------------------------------------------

  /** An entry is relevant exactly when some term occurs, as a substring at
      some position, in its lower-cased text. */
  lemma RelevantIff(e: Entry, terms: seq<string>)
    ensures Relevant(e, terms) <==> exists w, p :: w in terms && OccursAt(Lower(e.chunk), w, p)
  {
    var text := Lower(e.chunk);
    if Relevant(e, terms) {
      var w :| w in terms && Includes(text, w);
      IncludesIff(text, w);
      var p :| OccursAt(text, w, p);
      assert w in terms && OccursAt(text, w, p);
      assert exists w', p' :: w' in terms && OccursAt(Lower(e.chunk), w', p');
    } else {
      forall w | w in terms ensures Includes(text, w) <==> exists p :: OccursAt(text, w, p) {
        IncludesIff(text, w);
      }
    }
  }

  /** The positions of the candidates in the index: strictly increasing, and
      containing an index position exactly when that entry is relevant. */
  ghost function CandidateIndices(entries: seq<Entry>, terms: seq<string>): (idx: seq<nat>)
    ensures |idx| == |Candidates(entries, terms)|
    ensures forall j :: 0 <= j < |idx| ==>
      idx[j] < |entries| && Candidates(entries, terms)[j] == entries[idx[j]]
    ensures forall j, j' :: 0 <= j < j' < |idx| ==> idx[j] < idx[j']
    ensures forall i :: 0 <= i < |entries| ==> (Relevant(entries[i], terms) <==> i in idx)
  {
    if entries == [] then []
    else
      var n := |entries| - 1;
      var prior := CandidateIndices(entries[..n], terms);
      assert forall i :: 0 <= i < n ==> entries[..n][i] == entries[i];
      prior + (if Relevant(entries[n], terms) then [n] else [])
  }

  /** The selected matches: at most five, all relevant, in index order, and
      they are the FIRST relevant entries: a relevant entry that is not
      selected comes after five selected ones. */
  lemma MatchesAreFirstRelevant(entries: seq<Entry>, terms: seq<string>)
    ensures var ms := Matches(entries, terms);
      var idx := CandidateIndices(entries, terms);
      && |ms| <= MaxMatches
      && (forall j :: 0 <= j < |ms| ==> ms[j] == entries[idx[j]] && Relevant(ms[j], terms))
      && (forall j, j' :: 0 <= j < j' < |ms| ==> idx[j] < idx[j'])
      && (forall i :: 0 <= i < |entries| && Relevant(entries[i], terms) && i !in idx[..|ms|] ==>
            |ms| == MaxMatches && idx[MaxMatches - 1] < i)
  {
    var ms := Matches(entries, terms);
    var idx := CandidateIndices(entries, terms);
    forall i | 0 <= i < |entries| && Relevant(entries[i], terms) && i !in idx[..|ms|]
      ensures |ms| == MaxMatches && idx[MaxMatches - 1] < i
    {
      var j :| 0 <= j < |idx| && idx[j] == i;
      assert j >= |ms|;
    }
  }

  /** No terms, no candidates. */
  lemma {:induction false} NoTermsNoCandidates(entries: seq<Entry>)
    ensures Candidates(entries, []) == []
  {
    if entries != [] {
      NoTermsNoCandidates(entries[..|entries| - 1]);
    }
  }

  lemma {:induction false} CandidatesOfSingle(entries: seq<Entry>, terms: seq<string>, i: nat, n: nat)
    requires n <= |entries| && i < |entries| && Relevant(entries[i], terms)
    requires forall i' :: 0 <= i' < |entries| && i' != i ==> !Relevant(entries[i'], terms)
    ensures Candidates(entries[..n], terms) == if i < n then [entries[i]] else []
  {
    if n > 0 {
      var pre := entries[..n];
      assert pre[..n - 1] == entries[..n - 1];
      CandidatesOfSingle(entries, terms, i, n - 1);
      assert pre[n - 1] == entries[n - 1];
      assert Candidates(pre, terms) == Candidates(entries[..n - 1], terms)
        + (if Relevant(entries[n - 1], terms) then [entries[n - 1]] else []);
      if n - 1 != i {
        assert !Relevant(entries[n - 1], terms);
      }
    }
  }

  /** If exactly one entry of the index is relevant, it is the one match. */
  lemma SingleRelevantEntry(entries: seq<Entry>, terms: seq<string>, i: nat)
    requires i < |entries| && Relevant(entries[i], terms)
    requires forall i' :: 0 <= i' < |entries| && i' != i ==> !Relevant(entries[i'], terms)
    ensures Matches(entries, terms) == [entries[i]]
  {
    CandidatesOfSingle(entries, terms, i, |entries|);
    assert entries[..|entries|] == entries;
  }

  /** If no entry is relevant, nothing is selected. */
  lemma {:induction false} NoRelevantNoMatches(entries: seq<Entry>, terms: seq<string>)
    requires forall i :: 0 <= i < |entries| ==> !Relevant(entries[i], terms)
    ensures Candidates(entries, terms) == [] && Matches(entries, terms) == []
  {
    if entries != [] {
      var init := entries[..|entries| - 1];
      assert forall i :: 0 <= i < |init| ==> init[i] == entries[i];
      NoRelevantNoMatches(init, terms);
    }
  }

  lemma RelevantOneTerm(e: Entry, w: string)
    ensures Relevant(e, [w]) <==> Includes(Lower(e.chunk), w)
  {
    assert w in [w];
  }

  /** The terms of a one-word question (no white space, no capitals) are
      that word alone. */
  lemma OneWordTerms(question: string)
    requires question != []
    requires forall k :: 0 <= k < |question| ==> !IsSpace(question[k]) && !('A' <= question[k] <= 'Z')
    ensures Terms(question) == [question]
  {
    LowerOfLowercase(question);
    TokensOfWord(question);
  }

  /** A one-word question found in exactly one entry's lower-cased text
      selects exactly that entry. */
  lemma OneWordQueryHit(entries: seq<Entry>, question: string, i: nat)
    requires question != []
    requires forall k :: 0 <= k < |question| ==> !IsSpace(question[k]) && !('A' <= question[k] <= 'Z')
    requires i < |entries| && Includes(Lower(entries[i].chunk), question)
    requires forall i' :: 0 <= i' < |entries| && i' != i ==> !Includes(Lower(entries[i'].chunk), question)
    ensures Matches(entries, Terms(question)) == [entries[i]]
  {
    OneWordTerms(question);
    forall i' | 0 <= i' < |entries| ensures Relevant(entries[i'], [question]) <==> i' == i {
      RelevantOneTerm(entries[i'], question);
    }
    SingleRelevantEntry(entries, [question], i);
  }

  /** A one-word question found in no entry selects nothing. */
  lemma OneWordQueryMiss(entries: seq<Entry>, question: string)
    requires question != []
    requires forall k :: 0 <= k < |question| ==> !IsSpace(question[k]) && !('A' <= question[k] <= 'Z')
    requires forall i :: 0 <= i < |entries| ==> !Includes(Lower(entries[i].chunk), question)
    ensures Matches(entries, Terms(question)) == []
  {
    OneWordTerms(question);
    forall i | 0 <= i < |entries| ensures !Relevant(entries[i], [question]) {
      RelevantOneTerm(entries[i], question);
    }
    NoRelevantNoMatches(entries, [question]);
  }

  /** A missing or empty question is refused with a 400, and only those. */
  lemma ChatRejectsOnlyMissingQuestion(entries: seq<Entry>, question: Option<string>)
    ensures Chat(entries, question).ChatFailed? <==> question.None? || question.value == ""
    ensures Chat(entries, question).ChatFailed? ==>
      Chat(entries, question) == ChatFailed(400, QuestionRequired)
  {
  }

  /** A question of white space only passes the check but has no terms, so
      it is answered with zero matches. */
  lemma BlankQuestionMatchesNothing(entries: seq<Entry>, question: string)
    requires question != [] && forall i :: 0 <= i < |question| ==> IsSpace(question[i])
    ensures Terms(question) == [] && Matches(entries, Terms(question)) == []
    ensures Chat(entries, Some(question)).Answered?
    ensures Chat(entries, Some(question)).context == []
    ensures Chat(entries, Some(question)).answer == AnswerText(0)
  {
    var lowered := Lower(question);
    assert forall i :: 0 <= i < |lowered| ==> IsSpace(lowered[i]) by {
      LowerKeepsSpaces(question);
    }
    TokensEmptyIff(lowered);
    NoTermsNoCandidates(entries);
    AnswerShape(entries, question);
  }

  /** An empty index never fails a well-formed question; it answers with no
      matches. */
  lemma EmptyIndexMatchesNothing(question: string)
    requires question != ""
    ensures Chat([], Some(question)) == Answered(AnswerText(0), [])
  {
  }

  /** The summary sentence embeds the number of matches as a decimal
      numeral between its fixed opening and closing words. */
  lemma AnswerTextEmbedsCount(n: nat)
    ensures var a := AnswerText(n);
      && |AnswerPrefix| + |AnswerSuffix| < |a|
      && a[..|AnswerPrefix|] == AnswerPrefix
      && a[|a| - |AnswerSuffix|..] == AnswerSuffix
      && var middle := a[|AnswerPrefix|..|a| - |AnswerSuffix|];
         (forall k :: 0 <= k < |middle| ==> IsDigit(middle[k])) && ParseDec(middle) == n
  {
    var a := AnswerText(n);
    var d := Dec(n);
    assert a[|AnswerPrefix|..|a| - |AnswerSuffix|] == d;
    ParseDecOfDec(n);
  }

  /** The excerpt is the chunk's first min(400, |chunk|) characters. */
  lemma ExcerptIsPrefix(chunk: string)
    ensures Excerpt(chunk) == chunk[..Min(ExcerptLength, |chunk|)]
  {
  }

  /** The shape of an answer: one context item per match, carrying the
      match's file name and the first min(400, |chunk|) characters of its
      text, under a sentence that counts the matches. */
  lemma AnswerShape(entries: seq<Entry>, question: string)
    requires question != ""
    ensures Chat(entries, Some(question)).Answered?
    ensures Chat(entries, Some(question)).answer == AnswerText(|Matches(entries, Terms(question))|)
    ensures |Chat(entries, Some(question)).context| == |Matches(entries, Terms(question))| <= MaxMatches
    ensures var r := Chat(entries, Some(question));
      var ms := Matches(entries, Terms(question));
      forall j :: 0 <= j < |ms| ==>
        && r.context[j].filename == ms[j].filename
        && r.context[j].excerpt == ms[j].chunk[..Min(ExcerptLength, |ms[j].chunk|)]
  {
    var r := Chat(entries, Some(question));
    var ms := Matches(entries, Terms(question));
    forall j | 0 <= j < |ms|
      ensures r.context[j].excerpt == ms[j].chunk[..Min(ExcerptLength, |ms[j].chunk|)]
    {
      assert r.context[j] == ContextItem(ms[j].filename, Excerpt(ms[j].chunk));
      ExcerptIsPrefix(ms[j].chunk);
    }
  }
}
