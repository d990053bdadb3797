/** Text extraction from an uploaded PDF (extract_text_from_pdf).
    Decoding the PDF and asking each page for its text are done by the PDF
    library; here the result of that step is the input: one optional string
    per page, in page order. */
module Extraction {

  datatype Option<+T> = None | Some(value: T)

  /** What the PDF library returned for one page: absent, empty or some text. */
  type PageText = Option<string>

  /** The placeholder returned when the document yields no text. */
  const Sentinel: string := "No text found in PDF"

  /** The characters for which Python's str.isspace holds: the Unicode code
      points of bidirectional class WS, B or S, or of general category Zs. */
  const Whitespace: set<char> := {
    '\t', '\n', '\U{0B}', '\U{0C}', '\r', '\U{1C}', '\U{1D}', '\U{1E}', '\U{1F}', ' ',
    '\U{85}', '\U{A0}', '\U{1680}', '\U{2000}', '\U{2001}', '\U{2002}', '\U{2003}',
    '\U{2004}', '\U{2005}', '\U{2006}', '\U{2007}', '\U{2008}', '\U{2009}', '\U{200A}',
    '\U{2028}', '\U{2029}', '\U{202F}', '\U{205F}', '\U{3000}'}

  predicate IsSpace(c: char)
  {
    c in Whitespace
  }

  predicate AllSpace(s: string)
  {
    forall i :: 0 <= i < |s| ==> IsSpace(s[i])
  }

  /** A page is used when its text is truthy in Python: present and non-empty. */
  predicate Kept(p: PageText)
  {
    p.Some? && p.value != ""
  }

  /** What one page adds to the accumulated text. */
  function Contribution(p: PageText): string
  {
    if Kept(p) then p.value + "\n" else ""
  }

  /** The accumulator after the loop has visited every page of `pages`,
      written the way the loop grows it: one page at a time at the end. */
  function Joined(pages: seq<PageText>): string
  {
    if pages == [] then "" else Joined(pages[..|pages| - 1]) + Contribution(pages[|pages| - 1])
  }

  /** The texts of the kept pages, read front to back. */
  function KeptTexts(pages: seq<PageText>): (ts: seq<string>)
    ensures |ts| <= |pages|
    ensures forall i :: 0 <= i < |ts| ==> ts[i] != ""
  {
    if pages == [] then []
    else (if Kept(pages[0]) then [pages[0].value] else []) + KeptTexts(pages[1..])
  }

  /** Each text followed by a newline, concatenated. */
  function Lines(ts: seq<string>): string
  {
    if ts == [] then "" else ts[0] + "\n" + Lines(ts[1..])
  }

  // ----- str.strip() -----

  /** Index of the first non-whitespace character at or after `i`, or |s|
      (the forward scan of str.strip). */
  function SkipForward(s: string, i: nat): (j: nat)
    requires i <= |s|
    ensures i <= j <= |s|
    ensures forall k :: i <= k < j ==> IsSpace(s[k])
    ensures j < |s| ==> !IsSpace(s[j])
    decreases |s| - i
  {
    if i < |s| && IsSpace(s[i]) then SkipForward(s, i + 1) else i
  }

  /** One past the last non-whitespace character of s[lo..j], or `lo` when
      there is none (the backward scan of str.strip). */
  function SkipBackward(s: string, lo: nat, j: nat): (e: nat)
    requires lo <= j <= |s|
    ensures lo <= e <= j
    ensures forall k :: e <= k < j ==> IsSpace(s[k])
    ensures e > lo ==> !IsSpace(s[e - 1])
    decreases j
  {
    if j > lo && IsSpace(s[j - 1]) then SkipBackward(s, lo, j - 1) else j
  }

  /** s.strip(): the part of s between its leading and its trailing whitespace. */
  function Strip(s: string): (r: string)
    ensures r == [] <==> AllSpace(s)
    ensures r != [] ==> !IsSpace(r[0]) && !IsSpace(r[|r| - 1])
  {
    var i := SkipForward(s, 0);
    var e := SkipBackward(s, i, |s|);
    assert e == i ==> AllSpace(s) by {
      if e == i { forall k | 0 <= k < |s| ensures IsSpace(s[k]) { } }
    }
    s[i..e]
  }

  // ----- the function of the source -----

  /** What extract_text_from_pdf returns for a document whose pages are `pages`. */
  function ExtractedText(pages: seq<PageText>): (r: string)
    ensures r != ""
    ensures !IsSpace(r[0]) && !IsSpace(r[|r| - 1])
    ensures r == Sentinel <==> AllSpace(Joined(pages)) || Strip(Joined(pages)) == Sentinel
    ensures !AllSpace(Joined(pages)) ==> r == Strip(Joined(pages))
  {
    var t := Strip(Joined(pages));
    if t != "" then t else Sentinel
  }

  /** The loop of extract_text_from_pdf: grow `text` page by page, then strip
      it and fall back to the sentinel. */
  method ExtractText(pages: seq<PageText>) returns (r: string)
    ensures r == ExtractedText(pages)
  {
    var text := "";
    for i := 0 to |pages|
      invariant text == Joined(pages[..i])
    {
      assert pages[..i + 1][..i] == pages[..i];
      var page := pages[i];
      if page.Some? && page.value != "" {
        text := text + page.value + "\n";
      }
    }
    assert pages[..|pages|] == pages;
    var stripped := Strip(text);
    if stripped != "" {
      r := stripped;
    } else {
      r := Sentinel;
    }
  }

  // ----- lemmas -----

  /** The accumulated text of a document is the accumulated text of any split
      of its pages, concatenated: pages contribute independently, in order. */
  lemma {:induction false} JoinedConcat(p: seq<PageText>, q: seq<PageText>)
    ensures Joined(p + q) == Joined(p) + Joined(q)
    decreases |q|
  {
    if q == [] {
      assert p + q == p;
    } else {
      var q' := q[..|q| - 1];
      var last := q[|q| - 1];
      assert (p + q)[..|p + q| - 1] == p + q';
      assert (p + q)[|p + q| - 1] == last;
      JoinedConcat(p, q');
      calc {
        Joined(p + q);
        Joined(p + q') + Contribution(last);
        Joined(p) + Joined(q') + Contribution(last);
        Joined(p) + (Joined(q') + Contribution(last));
        Joined(p) + Joined(q);
      }
    }
  }

  /** A page in the middle of a document adds exactly its own text and a
      newline when its text is non-empty (whitespace included), and nothing
      when its text is empty or absent. */
  lemma PageContributes(p: seq<PageText>, x: PageText, q: seq<PageText>)
    ensures Joined(p + [x] + q) == Joined(p) + (if Kept(x) then x.value + "\n" else "") + Joined(q)
  {
    JoinedSingle(x);
    JoinedConcat(p, [x]);
    JoinedConcat(p + [x], q);
  }

  lemma JoinedSingle(x: PageText)
    ensures Joined([x]) == Contribution(x)
  {
  }

  lemma {:induction false} LinesConcat(a: seq<string>, b: seq<string>)
    ensures Lines(a + b) == Lines(a) + Lines(b)
    decreases |a|
  {
    if a == [] {
      assert a + b == b;
    } else {
      assert (a + b)[1..] == a[1..] + b;
      LinesConcat(a[1..], b);
    }
  }

  /** The accumulated text is the kept page texts, in page order, each
      followed by a newline. */
  lemma {:induction false} JoinedIsKeptLines(pages: seq<PageText>)
    ensures Joined(pages) == Lines(KeptTexts(pages))
    decreases |pages|
  {
    if pages != [] {
      var rest := pages[1..];
      JoinedIsKeptLines(rest);
      assert pages == [pages[0]] + rest;
      JoinedConcat([pages[0]], rest);
      assert [pages[0]][..0] == [];
      var head := if Kept(pages[0]) then [pages[0].value] else [];
      LinesConcat(head, KeptTexts(rest));
      if Kept(pages[0]) {
        assert Lines(head) == pages[0].value + "\n" + Lines([]);
      }
    }
  }

  /** The accumulated text is empty exactly when no page is kept. */
  lemma {:induction false} JoinedEmptyIff(pages: seq<PageText>)
    ensures Joined(pages) == "" <==> forall i :: 0 <= i < |pages| ==> !Kept(pages[i])
    decreases |pages|
  {
    if pages != [] {
      var init := pages[..|pages| - 1];
      JoinedEmptyIff(init);
      if Joined(pages) == "" {
        assert Joined(init) == "";
        forall i | 0 <= i < |pages| ensures !Kept(pages[i]) {
          if i < |pages| - 1 { assert pages[i] == init[i]; }
        }
      } else {
        if Joined(init) != "" {
          var i :| 0 <= i < |init| && Kept(init[i]);
          assert pages[i] == init[i];
        }
      }
    }
  }

  /** What strip removes is whitespace: s is some leading whitespace, then
      strip(s), then some trailing whitespace. */
  lemma StripInfix(s: string)
    ensures var i := SkipForward(s, 0); var r := Strip(s);
      i + |r| <= |s| && s == s[..i] + r + s[i + |r|..] &&
      AllSpace(s[..i]) && AllSpace(s[i + |r|..])
  {
  }

  /** strip has exactly one possible result: whenever s is whitespace, then t,
      then whitespace, with t empty or starting and ending in non-whitespace,
      strip(s) is t. */
  lemma StripUnique(s: string, a: string, t: string, b: string)
    requires s == a + t + b
    requires AllSpace(a) && AllSpace(b)
    requires t == [] || (!IsSpace(t[0]) && !IsSpace(t[|t| - 1]))
    ensures Strip(s) == t
  {
    if t == [] {
      assert forall k :: 0 <= k < |s| ==> if k < |a| then s[k] == a[k] else s[k] == b[k - |a|];
    } else {
      var i := SkipForward(s, 0);
      assert s[|a|] == t[0];
      assert forall k :: 0 <= k < |a| ==> s[k] == a[k];
      assert i == |a|;
      var e := SkipBackward(s, i, |s|);
      var m := |a| + |t|;
      assert s[m - 1] == t[|t| - 1];
      assert forall k :: m <= k < |s| ==> s[k] == b[k - m];
      assert e == m;
      assert s[i..e] == t;
    }
  }

  /** Stripping twice is stripping once. */
  lemma StripIdempotent(s: string)
    ensures Strip(Strip(s)) == Strip(s)
  {
  }

  /** A document whose only page holds whitespace keeps that page, yet is
      reported with the sentinel because the stripped text is empty. */
  lemma WhitespacePageIsKeptButYieldsSentinel()
    ensures Joined([Some(" ")]) == " \n"
    ensures ExtractedText([Some(" ")]) == Sentinel
  {
  }

  /** A document whose text is the sentinel itself cannot be told apart from
      one without text. */
  lemma SentinelTextIsIndistinguishable()
    ensures ExtractedText([Some(Sentinel)]) == ExtractedText([])
  {
    JoinedSingle(Some(Sentinel));
    var j := Sentinel + "\n";
    assert Sentinel[0] == 'N' && Sentinel[|Sentinel| - 1] == 'F';
    assert AllSpace("\n");
    assert j == [] + Sentinel + "\n";
    StripUnique(j, [], Sentinel, "\n");
  }

}
