/** The document extractor (`extract_text_from_pdf`, main.py:28-31): the
    texts pdfplumber extracts from the pages, in page order, are joined
    with newlines, skipping pages that yield no text.  pdfplumber itself is
    not modelled; its per-page results are the input. */
module Extractor {
  import opened Base
  import opened Strings

  /** What `page.extract_text()` gives for one page: `None` or a string. */
  type PageText = Option<string>

  /** A page contributes text exactly when Python finds its text truthy. */
  predicate HasText(p: PageText) {
    p.Some? && p.value != []
  }

  /** The texts of the pages whose text is truthy, in page order. */
  function PageTexts(pages: seq<PageText>): (r: seq<string>)
    ensures |r| <= |pages|
    ensures forall k :: 0 <= k < |r| ==> r[k] != []
    decreases |pages|
  {
    if pages == [] then []
    else if HasText(pages[0]) then [pages[0].value] + PageTexts(pages[1..])
    else PageTexts(pages[1..])
  }

  /** `"\n".join(...)` of those texts.  It is empty exactly when no page
      has text. */
  function ExtractText(pages: seq<PageText>): (r: string)
    ensures r == [] <==> forall k :: 0 <= k < |pages| ==> !HasText(pages[k])
  {
    PageTextsNone(pages);
    JoinEmpty("\n", PageTexts(pages));
    Join("\n", PageTexts(pages))
  }

  /** The filter keeps order: the texts of `a + b` are those of `a`
      followed by those of `b`. */
  lemma {:induction false} PageTextsAppend(a: seq<PageText>, b: seq<PageText>)
    ensures PageTexts(a + b) == PageTexts(a) + PageTexts(b)
    decreases |a|
  {
    if a != [] {
      assert (a + b)[1..] == a[1..] + b;
      PageTextsAppend(a[1..], b);
    } else {
      assert a + b == b;
    }
  }

  /** A text is kept exactly when some page yields it and it is non-empty. */
  lemma {:induction false} PageTextsMembers(pages: seq<PageText>, t: string)
    ensures t in PageTexts(pages) <==> t != [] && Some(t) in pages
    decreases |pages|
  {
    if pages != [] {
      PageTextsMembers(pages[1..], t);
      assert pages == [pages[0]] + pages[1..];
    }
  }

  /** A page without text adds neither text nor a separator, wherever it is. */
  lemma EmptyPageIgnored(a: seq<PageText>, p: PageText, b: seq<PageText>)
    requires !HasText(p)
    ensures ExtractText(a + [p] + b) == ExtractText(a + b)
  {
    PageTextsAppend(a + [p], b);
    PageTextsAppend(a, [p]);
    PageTextsAppend(a, b);
    assert [p][1..] == [];
    assert PageTexts([p]) == [];
    assert PageTexts(a + [p] + b) == PageTexts(a) + PageTexts(b);
  }

  /** A page with text is appended after a newline, or alone when no earlier
      page had text. */
  lemma AppendPage(a: seq<PageText>, t: string)
    requires t != []
    ensures ExtractText(a + [Some(t)]) ==
              if ExtractText(a) == [] then t else ExtractText(a) + "\n" + t
  {
    PageTextsAppend(a, [Some(t)]);
    assert [Some(t)][1..] == [];
    assert PageTexts([Some(t)]) == [t];
    JoinSnoc("\n", PageTexts(a), t);
    JoinEmpty("\n", PageTexts(a));
  }

  /** The filter keeps nothing exactly when no page has text. */
  lemma {:induction false} PageTextsNone(pages: seq<PageText>)
    ensures PageTexts(pages) == [] <==> forall k :: 0 <= k < |pages| ==> !HasText(pages[k])
    decreases |pages|
  {
    if pages != [] {
      PageTextsNone(pages[1..]);
      assert forall k :: 1 <= k < |pages| ==> pages[k] == pages[1..][k - 1];
    }
  }

  /** When no page text holds a newline, splitting the result at newlines
      gives back the non-empty page texts in page order. */
  lemma SplitRecoversPages(pages: seq<PageText>)
    requires PageTexts(pages) != []
    requires forall k :: 0 <= k < |pages| ==> pages[k].Some? ==> '\n' !in pages[k].value
    ensures Split(ExtractText(pages), '\n') == PageTexts(pages)
  {
    var texts := PageTexts(pages);
    forall k | 0 <= k < |texts| ensures '\n' !in texts[k] {
      PageTextsMembers(pages, texts[k]);
    }
    SplitJoin(texts, '\n');
  }

  /** One page reading "Hello" and one page with no text give "Hello". */
  lemma HelloAndBlankPage()
    ensures ExtractText([Some("Hello"), None]) == "Hello"
    ensures ExtractText([Some("Hello"), Some("")]) == "Hello"
  {
    assert [Some("Hello"), None][1..] == [None];
    assert [Some("Hello"), Some("")][1..] == [Some("")];
  }
}
