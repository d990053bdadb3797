/** The ranking run of the app (lines 102-115): once both a job description
    and at least one PDF are given, extract every file's text, score the
    texts, and build the ranked table. Widgets, messages, styling and the
    CSV download are presentation and are not modelled. */
module Pipeline {
  import opened Extraction
  import Ranking
  import Assembly

  /** An uploaded file: its name and what the PDF library reads from each page. */
  datatype Upload = Upload(name: string, pages: seq<PageText>)

  /** What a run ends in. */
  datatype Outcome =
    /** No job description or no file yet: the prompt is shown. */
    | AwaitingInput
    /** The warning that no valid resume was found. */
    | NoValidResumes
    /** Scoring raised; the exception leaves the script. */
    | Failed(error: Ranking.RankError)
    /** The ranked table. */
    | Ranked(table: seq<Assembly.Row>)

  function Names(uploads: seq<Upload>): seq<string>
  {
    seq(|uploads|, i requires 0 <= i < |uploads| => uploads[i].name)
  }

  /** The extracted text of every upload, in upload order. */
  function Texts(uploads: seq<Upload>): seq<string>
  {
    seq(|uploads|, i requires 0 <= i < |uploads| => ExtractedText(uploads[i].pages))
  }

  /** resumes = [extract_text_from_pdf(file) for file in uploaded_files] */
  method ExtractAll(uploads: seq<Upload>) returns (resumes: seq<string>)
    ensures resumes == Texts(uploads)
  {
    resumes := [];
    for n := 0 to |uploads|
      invariant resumes == Texts(uploads[..n])
    {
      var text := ExtractText(uploads[n].pages);
      assert Texts(uploads[..n + 1]) == Texts(uploads[..n]) + [text];
      resumes := resumes + [text];
    }
    assert uploads[..|uploads|] == uploads;
  }

  method Run(jobDescription: string, uploads: seq<Upload>, v: Ranking.Vectorizer) returns (o: Outcome)
    ensures o.AwaitingInput? <==> uploads == [] || jobDescription == ""
    ensures o.Failed? <==>
      uploads != [] && jobDescription != "" && Ranking.Rank(jobDescription, Texts(uploads), v).Err?
    ensures !o.NoValidResumes?
    ensures o.Ranked? ==>
      var scores := Ranking.Rank(jobDescription, Texts(uploads), v);
      && scores.Ok?
      && |o.table| == |uploads|
      && Assembly.SortedByScore(Assembly.Unranked(o.table))
      && Assembly.RankedInRowOrder(o.table)
      && multiset(Assembly.Unranked(o.table)) == multiset(Assembly.Pair(Names(uploads), scores.value))
  {
    if uploads == [] || jobDescription == "" {
      return AwaitingInput;
    }
    var resumes := ExtractAll(uploads);
    var scores := Ranking.Rank(jobDescription, resumes, v);
    if scores.Err? {
      return Failed(scores.error);
    }
    if |scores.value| == 0 {
      // the warning branch: never taken, as there is one score per upload
      // and at least one upload
      assert false;
      o := NoValidResumes;
    } else {
      var table := Assembly.Assemble(Names(uploads), scores.value);
      o := Ranked(table);
    }
  }

  /** In the ranked table, every uploaded file stands with the score of its
      own extracted text against the job description. */
  lemma FileKeepsItsScore(jobDescription: string, uploads: seq<Upload>, v: Ranking.Vectorizer,
                          table: seq<Assembly.Row>, k: nat)
    requires k < |uploads|
    requires Ranking.Rank(jobDescription, Texts(uploads), v).Ok?
    requires multiset(Assembly.Unranked(table)) ==
      multiset(Assembly.Pair(Names(uploads), Ranking.Rank(jobDescription, Texts(uploads), v).value))
    ensures var corpus := Ranking.Corpus(jobDescription, Texts(uploads));
      corpus[k + 1] == ExtractedText(uploads[k].pages) &&
      Assembly.Entry(uploads[k].name, Ranking.Score(v.cosine(corpus, k + 1))) in Assembly.Unranked(table)
  {
    var scores := Ranking.Rank(jobDescription, Texts(uploads), v).value;
    Assembly.EveryFileListed(Names(uploads), scores, table);
    Ranking.RankAligned(jobDescription, Texts(uploads), v, k);
  }
}
