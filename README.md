# Resume ranking: a Dafny model

The application is a Streamlit script that ranks uploaded PDF resumes against
a job description. This project models its hand-written logic and proves what
that logic promises:

- **Text extraction** (`extract_text_from_pdf`). Each page's text is taken as
  given, because decoding belongs to the PDF library. Pages whose text is
  empty or absent are skipped. Each kept page is appended followed by a
  newline. The result is stripped of Python whitespace, and the sentinel
  `"No text found in PDF"` is returned when nothing is left. The model is the
  loop `Extraction.ExtractText`, proved against the function
  `Extraction.ExtractedText`. Python's `str.strip` and `str.isspace` are
  written out: the 29 `isspace` code points, and the forward and backward
  scans.
- **Scoring** (`rank_resumes`). The TF-IDF fit and cosine similarity belong
  to the machine-learning library, so they become an input value
  `Ranking.Vectorizer`. It says whether the fit finds a vocabulary (the
  library raises when it does not). It also gives the similarity between
  row 0 and row k of the fit. The model fixes the rest of the function:
  - an empty batch short-circuits;
  - the corpus is the job description followed by the resumes;
  - the candidates are rows 1.. of the fit;
  - each score is `100 * similarity` truncated toward zero.
- **Result assembly** (lines 113-115). Names are paired with scores, the rows
  are sorted by score in descending order, and the Rank column is numbered
  1..N in row order. `Assembly.Assemble` states that the table
  - is sorted,
  - is a permutation of the input pairs,
  - has exactly ranks 1..N.

  It does not say how rows with equal scores are ordered: the library's
  default sort is not stable. `Assembly.ScoreColumnDetermined` proves that
  this freedom only reorders names among tied scores.
- **The run** (lines 102-115). `Pipeline.Run` joins the three parts. It
  covers the input guard, extraction of every file, scoring, the warning
  branch, and assembly.

Three behaviours of the code worth knowing:

- Rows with equal scores keep whatever order the library's default sort
  leaves them in; the code sets no tie-break.
- An empty vocabulary raises out of `rank_resumes` (`Pipeline.Outcome.Failed`).
  It is not reported as "no valid resumes". The warning branch at lines
  109-110 can never be taken: the batch is non-empty there, and there is one
  score per resume (`Pipeline.Run` ensures `!o.NoValidResumes?`).
- A document whose only text is the sentinel itself gives the same result as
  a document with no text (`Extraction.SentinelTextIsIndistinguishable`).
  The sentinel is therefore returned exactly when the joined text is all
  whitespace or strips to the sentinel.

## Model

| member | source | states |
|---|---|---|
| `Extraction.IsSpace` | resume_ranking_app.py:15 | a character is whitespace for `strip` iff it is one of the 29 code points of Python's `str.isspace` (the constant `Whitespace`) |
| `Extraction.Kept` | resume_ranking_app.py:13 | a page is used iff its text is truthy: present and non-empty |
| `Extraction.Contribution` | resume_ranking_app.py:13-14 | a used page adds its text followed by `"\n"`, any other page adds nothing (facts in `PageContributes`) |
| `Extraction.Joined` | resume_ranking_app.py:10-14 | the accumulator `text` after the loop, grown one page at a time at the end (facts in `JoinedConcat`, `JoinedIsKeptLines`, `JoinedEmptyIff`) |
| `Ranking.Truncate` | resume_ranking_app.py:32 | NumPy's `astype(int)`: truncation toward zero for both signs (facts in `TruncateTowardZero`) |
| `Ranking.Score` | resume_ranking_app.py:32 | one similarity times 100, truncated (facts in `ScoreInRange`, `ScoreExamples`) |
| `Assembly.Pair` | resume_ranking_app.py:113 | the DataFrame of the two equally long columns: row i is file name i with score i (facts in `EveryFileListed`) |
| `Pipeline.Names` | resume_ranking_app.py:113 | the file names in upload order |
| `Pipeline.Texts` | resume_ranking_app.py:104 | the extracted text of every upload, in upload order (computed by `ExtractAll`) |
| `Extraction.ExtractText` | resume_ranking_app.py:10-15 | the page loop and the final strip-or-sentinel return exactly `ExtractedText(pages)` |
| `Extraction.ExtractedText` | resume_ranking_app.py:15 | the result is never empty and neither starts nor ends with whitespace; it is the sentinel iff the joined text is all whitespace or strips to the sentinel; with non-whitespace content it is the stripped joined text |
| `Extraction.SkipForward` | resume_ranking_app.py:15 | the forward scan of `strip` stops at the first non-whitespace character after a run of whitespace |
| `Extraction.SkipBackward` | resume_ranking_app.py:15 | the backward scan of `strip` stops after the last non-whitespace character, with only whitespace behind it |
| `Extraction.Strip` | resume_ranking_app.py:15 | `strip` gives the empty string iff the input is all whitespace; otherwise its first and last characters are not whitespace |
| `Extraction.StripInfix` | resume_ranking_app.py:15 | the input is leading whitespace, then the stripped text, then trailing whitespace |
| `Extraction.StripUnique` | resume_ranking_app.py:15 | any split into whitespace, a core with non-whitespace ends (or empty), and whitespace has that core as `strip`'s result |
| `Extraction.StripIdempotent` | resume_ranking_app.py:15 | stripping a stripped text changes nothing |
| `Extraction.KeptTexts` | resume_ranking_app.py:11-13 | the filter of truthy page texts in page order; its contract only says no kept text is empty and there are no more texts than pages (the content is in `JoinedIsKeptLines`) |
| `Extraction.JoinedConcat` | resume_ranking_app.py:10-14 | the accumulated text of two runs of pages is the two accumulated texts concatenated in page order |
| `Extraction.PageContributes` | resume_ranking_app.py:11-14 | a page adds its own text and a newline when its text is non-empty, including whitespace only, and nothing when its text is empty or absent |
| `Extraction.JoinedIsKeptLines` | resume_ranking_app.py:11-14 | the accumulated text is the kept page texts in page order, each followed by a newline |
| `Extraction.JoinedEmptyIff` | resume_ranking_app.py:11-14 | the accumulated text is empty iff no page has non-empty text |
| `Extraction.WhitespacePageIsKeptButYieldsSentinel` | resume_ranking_app.py:13-15 | a whitespace-only page is appended, yet the document yields the sentinel |
| `Extraction.SentinelTextIsIndistinguishable` | resume_ranking_app.py:15 | a page whose text is the sentinel yields the same result as a document without pages |
| `Ranking.Corpus` | resume_ranking_app.py:22 | the corpus has one document more than the resumes: the job description first, then resume i at position i + 1 |
| `Ranking.Rank` | resume_ranking_app.py:18-34 | an empty batch gives an empty score list; scoring fails exactly when the batch is non-empty and the fit finds no vocabulary; otherwise there is one score per resume |
| `Ranking.TruncateTowardZero` | resume_ranking_app.py:32 | the integer cast keeps the sign and lies less than one away from the value, on the side of zero |
| `Ranking.ScoreInRange` | resume_ranking_app.py:32 | a similarity in [0, 1] gives a score in [0, 100] |
| `Ranking.ScoreExamples` | resume_ranking_app.py:32 | 0.999 scores 99 and 1.0 scores 100 (truncation, not rounding); -0.005 scores 0 |
| `Ranking.RankAligned` | resume_ranking_app.py:22-32 | score i is the score of the similarity between row 0 and row i + 1 of the fit, whose document is resume i |
| `Ranking.RankInRange` | resume_ranking_app.py:27-32 | when every candidate's similarity is in [0, 1], every score is in [0, 100] |
| `Ranking.IdenticalScoresHundred` | resume_ranking_app.py:29-32 | a candidate with similarity 1.0 scores 100 |
| `Assembly.Insert` | resume_ranking_app.py:114 | inserting one row into a sorted table keeps it sorted and adds exactly that row |
| `Assembly.SortByScore` | resume_ranking_app.py:114 | the sorted table has non-increasing scores and is a permutation of the input rows |
| `Assembly.AssignRanks` | resume_ranking_app.py:115 | adding the Rank column keeps every row's name and score and numbers the rows 1..N in row order |
| `Assembly.Assemble` | resume_ranking_app.py:113-115 | one row per file; scores non-increasing; ranks 1..N in row order; the (name, score) rows are a permutation of the input pairing |
| `Assembly.RanksAreOneToN` | resume_ranking_app.py:115 | the Rank column holds exactly the numbers 1..N, each once |
| `Assembly.RankFollowsScore` | resume_ranking_app.py:114-115 | a better rank never has a lower score, and a higher score always has the better rank |
| `Assembly.EveryFileListed` | resume_ranking_app.py:113-114 | every uploaded file appears with its own score, and every row is an uploaded file with its score |
| `Assembly.PermutedScores` | resume_ranking_app.py:114 | reordering rows reorders the Score column as a permutation |
| `Assembly.SortedUnique` | resume_ranking_app.py:114 | two non-increasing sequences with the same elements are equal |
| `Assembly.ScoreColumnDetermined` | resume_ranking_app.py:114 | any two sorted permutations of the same rows have the same Score column; tie order changes only the names |
| `Pipeline.ExtractAll` | resume_ranking_app.py:104 | one extracted text per upload, in upload order |
| `Pipeline.Run` | resume_ranking_app.py:102-115 | the prompt is shown iff there is no file or no job description; the run fails iff scoring raises; the warning branch is never reached; a ranked table has one row per upload, is sorted, has ranks 1..N, and pairs names with scores as a permutation |
| `Pipeline.FileKeepsItsScore` | resume_ranking_app.py:104-115 | in the ranked table every upload stands with the score of its own extracted text against the job description |

## Left out

- PDF decoding and `page.extract_text()` (lines 9 and 12) belong to the PDF library. Their per-page results are the input.
- A PDF that cannot be decoded raises inside the PDF library. That failure is not modelled, because decoding is not modelled.
- TF-IDF tokenisation, the vocabulary, the vectors and cosine similarity (lines 23-29) belong to the machine-learning library. `Ranking.Vectorizer` stands for them as an arbitrary value: a datatype of two functions, whether the fit finds a vocabulary and the similarity of row 0 with row k. A similarity in [0, 1] is an assumption of `Ranking.RankInRange`, not a fact proved about TF-IDF.
- Ranking.Score: it is computed on exact reals, not on 64-bit floats. A float product such as `0.29 * 100 = 28.999...` would truncate to 28 where the real product gives 29. Likewise two identical texts can get a float similarity just below 1.0 and so score 99; the model gives 100 only for a similarity of exactly 1.0. The cast's 64-bit width does not matter here, since scores stay within [-100, 100].
- Assembly.SortByScore: it does not promise any order among equal scores, because the library's default sort is not stable. The model's own insertion happens to keep the input order, but no contract states that.
- CSV serialisation and encoding (line 125) are library formatting.
- Page setup, CSS, titles, the image, the widgets, `st.dataframe` styling, the messages and the download button (lines 37-101, 103, 117-133) are presentation. `Pipeline.Run` keeps only the branches they sit on.
