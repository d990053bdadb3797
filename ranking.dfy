/** Scoring of resumes against a job description (rank_resumes).
    TF-IDF weighting and cosine similarity belong to the machine-learning
    library; they are an input here, so that what the function itself does
    (the corpus, the slicing of the candidates, the scaling and truncation)
    is pinned down for every possible similarity measure. */
module Ranking {

  datatype Result<+T, +E> = Ok(value: T) | Err(error: E)

  /** Why scoring could not produce a result. */
  datatype RankError =
    /** The vectorizer found no term in any document of the corpus and
        raised instead of returning a matrix. */
    | EmptyVocabulary

  /** The foreign vectorize-and-compare step, seen from the outside.
      `hasVocabulary(corpus)` says whether TF-IDF fitting on `corpus`
      succeeds; `cosine(corpus, k)` is the cosine similarity between the
      vector of document 0 and the vector of document k of that fit. */
  datatype Vectorizer = Vectorizer(
    hasVocabulary: seq<string> -> bool,
    cosine: (seq<string>, nat) -> real)

  /** The documents fitted together: the job description, then every resume
      in input order. */
  function Corpus(jobDescription: string, resumes: seq<string>): (c: seq<string>)
    ensures |c| == |resumes| + 1
    ensures c[0] == jobDescription
    ensures forall i :: 0 <= i < |resumes| ==> c[i + 1] == resumes[i]
  {
    [jobDescription] + resumes
  }

  /** NumPy's float-to-int cast: drop the fractional part, rounding toward
      zero for both signs. */
  function Truncate(x: real): int
  {
    if x >= 0.0 then x.Floor else -((-x).Floor)
  }

  /** The whole-number score of one similarity. */
  function Score(similarity: real): int
  {
    Truncate(100.0 * similarity)
  }

  /** rank_resumes: one score per resume, in resume order. */
  function Rank(jobDescription: string, resumes: seq<string>, v: Vectorizer): (r: Result<seq<int>, RankError>)
    ensures resumes == [] ==> r == Ok([])
    ensures r.Err? <==> resumes != [] && !v.hasVocabulary(Corpus(jobDescription, resumes))
    ensures r.Ok? ==> |r.value| == |resumes|
  {
    if resumes == [] then Ok([])
    else
      var documents := Corpus(jobDescription, resumes);
      if !v.hasVocabulary(documents) then Err(EmptyVocabulary)
      else
        // the reference vector is row 0, the candidates are rows 1.. of the fit
        Ok(seq(|resumes|, i requires 0 <= i < |resumes| => Score(v.cosine(documents, i + 1))))
  }

  // ----- lemmas -----

  /** Truncation toward zero: the result has the sign of x and lies less than
      one away from x, on the side of zero. */
  lemma TruncateTowardZero(x: real)
    ensures x >= 0.0 ==> 0 <= Truncate(x) && Truncate(x) as real <= x < Truncate(x) as real + 1.0
    ensures x < 0.0 ==> Truncate(x) <= 0 && Truncate(x) as real - 1.0 < x <= Truncate(x) as real
  {
  }

  /** A similarity in [0, 1] gives a score in [0, 100]. */
  lemma ScoreInRange(similarity: real)
    requires 0.0 <= similarity <= 1.0
    ensures 0 <= Score(similarity) <= 100
  {
  }

  /** Truncation, not rounding: 0.999 scores 99, 1.0 scores 100, and a
      negative similarity truncates toward zero. */
  lemma ScoreExamples()
    ensures Score(0.999) == 99
    ensures Score(1.0) == 100
    ensures Score(0.0) == 0
    ensures Score(-0.005) == 0
  {
  }

  /** The i-th score belongs to the i-th resume: it is the score of the
      similarity between the job description and exactly that resume's row
      of the fit (row i + 1 of the corpus, whose document is resumes[i]). */
  lemma RankAligned(jobDescription: string, resumes: seq<string>, v: Vectorizer, i: nat)
    requires i < |resumes|
    requires Rank(jobDescription, resumes, v).Ok?
    ensures var c := Corpus(jobDescription, resumes);
      c[i + 1] == resumes[i] &&
      Rank(jobDescription, resumes, v).value[i] == Score(v.cosine(c, i + 1))
  {
  }

  /** With every candidate's similarity in [0, 1], every score is in [0, 100]. */
  lemma RankInRange(jobDescription: string, resumes: seq<string>, v: Vectorizer)
    requires Rank(jobDescription, resumes, v).Ok?
    requires forall i :: 1 <= i <= |resumes| ==> 0.0 <= v.cosine(Corpus(jobDescription, resumes), i) <= 1.0
    ensures forall i :: 0 <= i < |resumes| ==> 0 <= Rank(jobDescription, resumes, v).value[i] <= 100
  {
  }

  /** A candidate whose similarity is exactly 1.0 scores 100. */
  lemma IdenticalScoresHundred(jobDescription: string, resumes: seq<string>, v: Vectorizer, i: nat)
    requires i < |resumes|
    requires Rank(jobDescription, resumes, v).Ok?
    requires v.cosine(Corpus(jobDescription, resumes), i + 1) == 1.0
    ensures Rank(jobDescription, resumes, v).value[i] == 100
  {
  }
}
