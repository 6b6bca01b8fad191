/** The token-budgeted context assembler of the retrieval-augmented chatbot:
    `format_query_results` walks the search results in rank order and keeps
    appending one formatted fragment per result until the token counter says
    the next candidate would go over MAX_TOKEN_COUNT_FOR_SOURCE_TEXT. */
module RagUtils {
  import opened Decimal

  /** MAX_TOKEN_COUNT_FOR_SOURCE_TEXT */
  const MaxTokenCountForSourceText: nat := 3000

  /** The dictionary keys a search result is read through. */
  const SubjectKey: string := "query_target"
  const ContentsKey: string := "contents"

  /** One search result as the search index returns it: a dictionary. */
  type Document = map<string, string>

  /** The two fields of a search result that the assembler uses. */
  datatype SearchResult = SearchResult(subject: string, contents: string)

  /** The exception raised by a dictionary lookup of a missing key. */
  datatype KeyError = KeyError(key: string)

  datatype Result<T> = Ok(value: T) | Err(error: KeyError)

  datatype Option<T> = None | Some(value: T)

  // ---------------------------------------------------------------------
  // Token counter
  // ---------------------------------------------------------------------

  /** calc_token_count with the model fixed: `tokenize` stands for looking up
      the encoding of the model and encoding the text, None when either raises;
      a failure is reported as zero tokens. */
  function CalcTokenCount(tokenize: string -> Option<seq<int>>, text: string): nat {
    match tokenize(text)
    case Some(tokens) => |tokens|
    case None => 0
  }

  /** A tokenizer that always fails (unknown model, missing library, ...). */
  function FailingTokenizer(text: string): Option<seq<int>> {
    None
  }

  /** The counter the assembler sees when tokenization keeps failing. */
  function DegradedCount(text: string): nat {
    CalcTokenCount(FailingTokenizer, text)
  }

  // ---------------------------------------------------------------------
  // Reading a result
  // ---------------------------------------------------------------------

  /** The two lookups `result["query_target"]` and `result["contents"]`, in
      that order: the first missing key is the one reported. */
  function Decode(doc: Document): (r: Result<SearchResult>)
    ensures r.Ok? <==> SubjectKey in doc && ContentsKey in doc
    ensures r.Ok? ==> r.value.subject == doc[SubjectKey] && r.value.contents == doc[ContentsKey]
    ensures r.Err? ==> r.error.key !in doc
    ensures r.Err? && r.error.key != SubjectKey ==> SubjectKey in doc && r.error.key == ContentsKey
  {
    if SubjectKey !in doc then Err(KeyError(SubjectKey))
    else if ContentsKey !in doc then Err(KeyError(ContentsKey))
    else Ok(SearchResult(doc[SubjectKey], doc[ContentsKey]))
  }

  /** The results read from the front of `docs` up to, not including, the
      first document with a missing key. */
  function DecodedPrefix(docs: seq<Document>): (rs: seq<SearchResult>)
    ensures |rs| <= |docs|
    ensures forall i :: 0 <= i < |rs| ==> Decode(docs[i]) == Ok(rs[i])
    ensures |rs| < |docs| ==> Decode(docs[|rs|]).Err?
  {
    if docs == [] then []
    else match Decode(docs[0])
      case Err(_) => []
      case Ok(r) => [r] + DecodedPrefix(docs[1..])
  }

  // ---------------------------------------------------------------------
  // Fragments and the text they build
  // ---------------------------------------------------------------------

  /** The fragment appended for the result of rank `i`. */
  function Fragment(i: nat, r: SearchResult): string {
    NatToString(i) + " subject: " + r.subject + ", contents: " + r.contents
  }

  /** The candidate that is measured for rank `i`: the fragment with a
      bracketed rank in front and a newline behind. */
  function Candidate(i: nat, r: SearchResult): string {
    "[" + NatToString(i) + "]:" + Fragment(i, r) + "\n"
  }

  /** The fragments of all of `rs`, each tagged with its position, in order
      and without separators. */
  function Concat(rs: seq<SearchResult>): string {
    if rs == [] then "" else Concat(rs[..|rs| - 1]) + Fragment(|rs| - 1, rs[|rs| - 1])
  }

  /** The text whose tokens are counted before rank `i` is appended. */
  function Measured(rs: seq<SearchResult>, i: nat): string
    requires i < |rs|
  {
    Concat(rs[..i]) + Candidate(i, rs[i])
  }

  /** Rank `i` passes the budget check. */
  predicate Fits(rs: seq<SearchResult>, count: string -> nat, i: nat)
    requires i < |rs|
  {
    count(Measured(rs, i)) <= MaxTokenCountForSourceText
  }

  /** The first rank at or after `j` that fails the budget check, or |rs|. */
  function CutoffFrom(rs: seq<SearchResult>, count: string -> nat, j: nat): (k: nat)
    requires j <= |rs|
    requires forall i :: 0 <= i < j ==> Fits(rs, count, i)
    ensures j <= k <= |rs|
    ensures forall i :: 0 <= i < k ==> Fits(rs, count, i)
    ensures k < |rs| ==> !Fits(rs, count, k)
    decreases |rs| - j
  {
    if j == |rs| || !Fits(rs, count, j) then j else CutoffFrom(rs, count, j + 1)
  }

  /** The number of results included: every rank before it fits the budget,
      and the rank at it, if any, does not. */
  function Cutoff(rs: seq<SearchResult>, count: string -> nat): (k: nat)
    ensures k <= |rs|
    ensures forall i :: 0 <= i < k ==> Fits(rs, count, i)
    ensures k < |rs| ==> !Fits(rs, count, k)
  {
    CutoffFrom(rs, count, 0)
  }

  /** The source text assembled from well-formed results. */
  function SourceText(rs: seq<SearchResult>, count: string -> nat): string {
    Concat(rs[..Cutoff(rs, count)])
  }

  /** What format_query_results returns or raises for `docs`: a KeyError when
      the loop reaches a document with a missing key, else the source text. */
  function Formatted(docs: seq<Document>, count: string -> nat): Result<string> {
    var rs := DecodedPrefix(docs);
    if Cutoff(rs, count) == |rs| && |rs| < |docs| then Err(Decode(docs[|rs|]).error)
    else Ok(SourceText(rs, count))
  }

  // ---------------------------------------------------------------------
  // The assembler
  // ---------------------------------------------------------------------

  /** format_query_results, with the token counter as a parameter. */
  method FormatQueryResults(queryResults: seq<Document>, count: string -> nat) returns (r: Result<string>)
    ensures r == Formatted(queryResults, count)
    ensures queryResults == [] ==> r == Ok("")
  {
    ghost var rs := DecodedPrefix(queryResults);
    ghost var k := Cutoff(rs, count);
    var sourceText := "";
    var i := 0;
    while i < |queryResults|
      invariant i <= k && k <= |rs|
      invariant sourceText == Concat(rs[..i])
    {
      var result := queryResults[i];
      if SubjectKey !in result {
        return Err(KeyError(SubjectKey));
      }
      var subject := result[SubjectKey];
      if ContentsKey !in result {
        return Err(KeyError(ContentsKey));
      }
      var contents := result[ContentsKey];
      var searchResult := SearchResult(subject, contents);
      assert i < |rs| && searchResult == rs[i];
      var measured := sourceText + Candidate(i, searchResult);
      assert measured == Measured(rs, i);
      if count(measured) > MaxTokenCountForSourceText {
        assert !Fits(rs, count, i);
        break;
      }
      ConcatStep(rs, i);
      sourceText := sourceText + Fragment(i, searchResult);
      i := i + 1;
    }
    assert i == k && sourceText == SourceText(rs, count);
    return Ok(sourceText);
  }

  /** Two calls on the same results and the same counter agree. */
  method FormatIsDeterministic(queryResults: seq<Document>, count: string -> nat)
    returns (first: Result<string>, second: Result<string>)
    ensures first == second
  {
    first := FormatQueryResults(queryResults, count);
    second := FormatQueryResults(queryResults, count);
  }

  // ---------------------------------------------------------------------
  // Properties of the fragments
  // ---------------------------------------------------------------------

  /** The text of ranks 0..i is the text of ranks 0..i-1 followed directly by
      the fragment of rank i. */
  lemma ConcatStep(rs: seq<SearchResult>, i: nat)
    requires i < |rs|
    ensures Concat(rs[..i + 1]) == Concat(rs[..i]) + Fragment(i, rs[i])
  {
    assert rs[..i + 1][..i] == rs[..i];
  }

  /** The text of a shorter run of ranks is a prefix of that of a longer one. */
  lemma {:induction false} ConcatIsPrefix(rs: seq<SearchResult>, j: nat, k: nat)
    requires j <= k <= |rs|
    ensures Concat(rs[..j]) <= Concat(rs[..k])
    decreases k - j
  {
    if j < k {
      ConcatIsPrefix(rs, j, k - 1);
      ConcatStep(rs, k - 1);
    }
  }

  /** The measured candidate inserts the bracketed rank and the newline that
      the appended fragment lacks, so it is longer by the rank's digits plus four,
      and the two texts first differ where the '[' stands. */
  lemma MeasuredExceedsAppended(rs: seq<SearchResult>, i: nat)
    requires i < |rs|
    ensures |Measured(rs, i)| == |Concat(rs[..i + 1])| + |NatToString(i)| + 4
    ensures Concat(rs[..i]) <= Measured(rs, i) && Concat(rs[..i]) <= Concat(rs[..i + 1])
    ensures Measured(rs, i)[|Concat(rs[..i])|] == '['
    ensures IsDigit(Concat(rs[..i + 1])[|Concat(rs[..i])|])
    ensures Measured(rs, i)[|Measured(rs, i)| - 1] == '\n'
  {
    ConcatStep(rs, i);
    var before := Concat(rs[..i]);
    var f := Fragment(i, rs[i]);
    assert Concat(rs[..i + 1])[|before|] == f[0] == NatToString(i)[0];
  }

  // ---------------------------------------------------------------------
  // Properties of the source text
  // ---------------------------------------------------------------------

  /** Any count of included results that meets the budget conditions is the
      cutoff, and the source text is the text of exactly those ranks. */
  lemma CutoffUnique(rs: seq<SearchResult>, count: string -> nat, k: nat)
    requires k <= |rs|
    requires forall i :: 0 <= i < k ==> Fits(rs, count, i)
    requires k < |rs| ==> !Fits(rs, count, k)
    ensures Cutoff(rs, count) == k
    ensures SourceText(rs, count) == Concat(rs[..k])
  {
  }

  /** The source text is a rank-ordered prefix of the text of all results:
      nothing is skipped or reordered. */
  lemma SourceTextIsPrefix(rs: seq<SearchResult>, count: string -> nat)
    ensures SourceText(rs, count) <= Concat(rs)
    ensures |SourceText(rs, count)| <= |Concat(rs)|
  {
    ConcatIsPrefix(rs, Cutoff(rs, count), |rs|);
    assert rs[..|rs|] == rs;
  }

  /** An empty result list gives the empty text. */
  lemma EmptyResults(count: string -> nat)
    ensures SourceText([], count) == ""
    ensures Formatted([], count) == Ok("")
  {
  }

  /** The loop stops at the first over-budget rank k: fragment k is not
      appended, and what follows rank k is never looked at. */
  lemma StopsAtFirstOverBudget(rs: seq<SearchResult>, rs': seq<SearchResult>, count: string -> nat)
    requires Cutoff(rs, count) < |rs|
    requires Cutoff(rs, count) < |rs'| && rs'[..Cutoff(rs, count) + 1] == rs[..Cutoff(rs, count) + 1]
    ensures count(Measured(rs, Cutoff(rs, count))) > MaxTokenCountForSourceText
    ensures SourceText(rs, count) < Concat(rs[..Cutoff(rs, count) + 1])
    ensures Cutoff(rs', count) == Cutoff(rs, count)
    ensures SourceText(rs', count) == SourceText(rs, count)
  {
    var k := Cutoff(rs, count);
    MeasuredExceedsAppended(rs, k);
    forall i | 0 <= i <= k
      ensures Fits(rs', count, i) == Fits(rs, count, i)
    {
      assert rs'[..i] == rs[..k + 1][..i] == rs[..i];
      assert rs'[i] == rs[..k + 1][i] == rs[i];
      assert Measured(rs', i) == Measured(rs, i);
    }
    CutoffUnique(rs', count, k);
    assert rs'[..k] == rs[..k];
  }

  /** If the very first candidate alone is over budget, nothing is included. */
  lemma FirstCandidateOverBudget(rs: seq<SearchResult>, count: string -> nat)
    requires |rs| > 0
    requires count(Candidate(0, rs[0])) > MaxTokenCountForSourceText
    ensures Cutoff(rs, count) == 0
    ensures SourceText(rs, count) == ""
  {
    assert Measured(rs, 0) == Candidate(0, rs[0]);
  }

  /** A counter that never reports more than the budget lets every result in. */
  lemma BoundedCounterIncludesAll(rs: seq<SearchResult>, count: string -> nat)
    requires forall s :: count(s) <= MaxTokenCountForSourceText
    ensures Cutoff(rs, count) == |rs|
    ensures SourceText(rs, count) == Concat(rs)
  {
    assert rs[..|rs|] == rs;
  }

  /** `s` can be obtained from `t` by deleting characters. */
  predicate IsSubsequence(s: string, t: string)
    decreases |t|
  {
    if s == [] then true
    else if t == [] then false
    else (s[0] == t[0] && IsSubsequence(s[1..], t[1..])) || IsSubsequence(s, t[1..])
  }

  /** A counter that never reports more tokens for a text with characters
      deleted. */
  ghost predicate DeletionMonotone(count: string -> nat) {
    forall s, t :: IsSubsequence(s, t) ==> count(s) <= count(t)
  }

  lemma {:induction false} SubsequenceOfExtension(s: string, d: string)
    ensures IsSubsequence(s, s + d)
    decreases |s|
  {
    if s != [] {
      SubsequenceOfExtension(s[1..], d);
      assert (s + d)[1..] == s[1..] + d;
    }
  }

  lemma {:induction false} SubsequenceSkip(s: string, b: string, t: string)
    requires IsSubsequence(s, t)
    ensures IsSubsequence(s, b + t)
    decreases |b|
  {
    if s != [] && b != [] {
      SubsequenceSkip(s, b[1..], t);
      assert (b + t)[1..] == b[1..] + t;
    } else if b == [] {
      assert b + t == t;
    }
  }

  lemma {:induction false} SubsequenceCommonPrefix(a: string, s: string, t: string)
    requires IsSubsequence(s, t)
    ensures IsSubsequence(a + s, a + t)
    decreases |a|
  {
    if a == [] {
      assert a + s == s && a + t == t;
    } else {
      SubsequenceCommonPrefix(a[1..], s, t);
      assert (a + s)[1..] == a[1..] + s;
      assert (a + t)[1..] == a[1..] + t;
    }
  }

  /** The text appended for rank i is a subsequence of the text measured for it. */
  lemma AppendedIsSubsequenceOfMeasured(rs: seq<SearchResult>, i: nat)
    requires i < |rs|
    ensures IsSubsequence(Concat(rs[..i + 1]), Measured(rs, i))
  {
    ConcatStep(rs, i);
    var before := Concat(rs[..i]);
    var f := Fragment(i, rs[i]);
    var tag := "[" + NatToString(i) + "]:";
    SubsequenceOfExtension(f, "\n");
    SubsequenceSkip(f, tag, f + "\n");
    SubsequenceCommonPrefix(before, f, tag + (f + "\n"));
    assert Measured(rs, i) == before + (tag + (f + "\n"));
  }

  /** With a counter that does not grow when characters are deleted, the
      under-counting of the measured candidate makes the check conservative:
      once anything is included, the source text itself is within budget. */
  lemma BudgetHeldUnderDeletionMonotoneCounter(rs: seq<SearchResult>, count: string -> nat)
    requires DeletionMonotone(count)
    requires Cutoff(rs, count) > 0
    ensures count(SourceText(rs, count)) <= MaxTokenCountForSourceText
  {
    var k := Cutoff(rs, count);
    AppendedIsSubsequenceOfMeasured(rs, k - 1);
    assert Fits(rs, count, k - 1);
  }

  // ---------------------------------------------------------------------
  // Properties of the assembler on documents
  // ---------------------------------------------------------------------

  /** Documents that agree on their first `j` ranks, all well-formed, read
      to the same first `j` results. */
  lemma DecodedPrefixAgree(docs: seq<Document>, docs': seq<Document>, j: nat)
    requires j <= |DecodedPrefix(docs)| && j <= |docs'| && docs'[..j] == docs[..j]
    ensures j <= |DecodedPrefix(docs')|
    ensures DecodedPrefix(docs')[..j] == DecodedPrefix(docs)[..j]
  {
    var rs, rs' := DecodedPrefix(docs), DecodedPrefix(docs');
    forall i | 0 <= i < j
      ensures Decode(docs'[i]) == Ok(rs[i])
    {
      assert docs'[i] == docs[..j][i];
    }
  }

  /** Once the loop stops at an over-budget rank k, the documents after k are
      never read: not even a missing key there changes the result. */
  lemma LaterDocumentsNeverRead(docs: seq<Document>, docs': seq<Document>, count: string -> nat)
    requires Cutoff(DecodedPrefix(docs), count) < |DecodedPrefix(docs)|
    requires Cutoff(DecodedPrefix(docs), count) < |docs'|
    requires docs'[..Cutoff(DecodedPrefix(docs), count) + 1] == docs[..Cutoff(DecodedPrefix(docs), count) + 1]
    ensures Formatted(docs', count) == Formatted(docs, count)
    ensures Formatted(docs, count).Ok?
  {
    var rs, rs' := DecodedPrefix(docs), DecodedPrefix(docs');
    var k := Cutoff(rs, count);
    DecodedPrefixAgree(docs, docs', k + 1);
    assert rs'[..k + 1] == rs[..k + 1];
    StopsAtFirstOverBudget(rs, rs', count);
  }

  /** A document with a missing key at a rank that the loop reaches raises
      that key's KeyError, even when its candidate would be over budget. */
  lemma MissingKeyRaises(docs: seq<Document>, count: string -> nat, m: nat)
    requires m < |docs| && Decode(docs[m]).Err?
    requires forall i :: 0 <= i < m ==> Decode(docs[i]).Ok?
    requires forall i :: 0 <= i < m ==> Fits(DecodedPrefix(docs), count, i)
    ensures Formatted(docs, count) == Err(Decode(docs[m]).error)
  {
    var rs := DecodedPrefix(docs);
    assert |rs| == m;
    CutoffUnique(rs, count, m);
  }

  /** When tokenization keeps failing and every result has both keys, every
      result is included. */
  lemma DegradedCounterIncludesAll(docs: seq<Document>)
    requires forall i :: 0 <= i < |docs| ==> Decode(docs[i]).Ok?
    ensures |DecodedPrefix(docs)| == |docs|
    ensures Formatted(docs, DegradedCount) == Ok(Concat(DecodedPrefix(docs)))
  {
    var rs := DecodedPrefix(docs);
    BoundedCounterIncludesAll(rs, DegradedCount);
  }

  /** Two short results under a counter that reports nothing: both fragments,
      in rank order, with no brackets and no newlines. */
  lemma TwoShortResults()
    ensures Formatted([map[SubjectKey := "A", ContentsKey := "short"],
                       map[SubjectKey := "B", ContentsKey := "short"]], DegradedCount)
         == Ok(("0" + " subject: " + "A" + ", contents: " + "short")
             + ("1" + " subject: " + "B" + ", contents: " + "short"))
  {
    var docs := [map[SubjectKey := "A", ContentsKey := "short"],
                 map[SubjectKey := "B", ContentsKey := "short"]];
    var rs := [SearchResult("A", "short"), SearchResult("B", "short")];
    assert Decode(docs[0]) == Ok(rs[0]);
    assert Decode(docs[1]) == Ok(rs[1]);
    DegradedCounterIncludesAll(docs);
    assert DecodedPrefix(docs) == rs;
    ConcatStep(rs, 0);
    ConcatStep(rs, 1);
    assert rs[..2] == rs && rs[..0] == [];
    assert NatToString(1) == [DigitChar(1)] == "1";
    assert Concat(rs) == Fragment(0, rs[0]) + Fragment(1, rs[1]);
    assert Fragment(0, rs[0]) == NatToString(0) + " subject: " + "A" + ", contents: " + "short";
    assert Fragment(1, rs[1]) == NatToString(1) + " subject: " + "B" + ", contents: " + "short";
  }
}
