/** A course card as the crawler sees it after HTML parsing, and the
    utility functions that read its title and description. Parsing itself is
    not modelled: a `Block` holds what BeautifulSoup's searches return. */
module Blocks {
  import opened Wrappers
  import opened Text

  /** One parsed element (a `div.card-body` card, or a `div` inside one):
      - `titles`: the text of each descendant `b.card-title`, in document order;
      - `texts`: the text of each descendant `p.card-text`, in document order;
      - `children`: the `div`s directly inside it, in document order;
      - `href`: the `href` of the first descendant `a` that has one. */
  datatype Block = Block(
    titles: seq<string>,
    texts: seq<string>,
    children: seq<Block>,
    href: Option<string>)

  /** The given `div`s and, after each, every `div` inside it, in document
      order. */
  function Descendants(divs: seq<Block>): seq<Block>
    decreases divs
  {
    if divs == [] then [] else [divs[0]] + Descendants(divs[0].children) + Descendants(divs[1..])
  }

  /** `find_sequence`, that is `tag.find_all("div")`: the search is
      recursive, so it finds every `div` below the tag, the `div`s directly
      inside it and, with each found `div`, the `div`s inside that one, and
      nothing else. */
  function FindSequence(tag: Block): (r: seq<Block>)
    ensures r == [] <==> tag.children == []
    ensures forall d :: d in tag.children ==> d in r
    ensures forall d, e :: d in r && e in d.children ==> e in r
    ensures forall d :: d in r ==> d in tag.children || exists p :: p in r && d in p.children
  {
    DescendantsComplete(tag.children);
    DescendantsSound(tag.children);
    Descendants(tag.children)
  }
  /** The order and multiplicity of what `find_all("div")` finds: the first
      inner div, then everything inside it, then what its later siblings
      give, in document order. */
  lemma FindSequenceUnfolds(tag: Block)
    requires tag.children != []
    ensures FindSequence(tag) == [tag.children[0]] + FindSequence(tag.children[0])
                                 + FindSequence(tag.(children := tag.children[1..]))
  {
  }


  lemma {:induction false} DescendantsComplete(divs: seq<Block>)
    ensures forall d :: d in divs ==> d in Descendants(divs)
    ensures forall d, e :: d in Descendants(divs) && e in d.children ==> e in Descendants(divs)
    decreases divs
  {
    if divs != [] {
      var first := divs[0];
      DescendantsComplete(first.children);
      DescendantsComplete(divs[1..]);
      forall d | d in divs ensures d in Descendants(divs) {
        if d != first {
          assert d in divs[1..];
        }
      }
    }
  }

  lemma {:induction false} DescendantsSound(divs: seq<Block>)
    ensures forall d :: d in Descendants(divs) ==>
              d in divs || exists p :: p in Descendants(divs) && d in p.children
    decreases divs
  {
    if divs != [] {
      var first := divs[0];
      var inner := Descendants(first.children);
      var rest := Descendants(divs[1..]);
      DescendantsSound(first.children);
      DescendantsSound(divs[1..]);
      DescendantsComplete(first.children);
      forall d | d in Descendants(divs)
        ensures d in divs || exists p :: p in Descendants(divs) && d in p.children
      {
        if d in inner {
          if d in first.children {
            assert first in Descendants(divs);
          } else {
            var p :| p in inner && d in p.children;
            assert p in Descendants(divs);
          }
        } else if d in rest {
          if d in divs[1..] {
            assert d in divs;
          } else {
            var p :| p in rest && d in p.children;
            assert p in Descendants(divs);
          }
        }
      }
    }
  }

  /** `extract_course_title`: the stripped text of the first title element.
      It is empty exactly when there is no title element or the first one is
      all white space, and otherwise neither starts nor ends with white
      space. */
  function ExtractCourseTitle(block: Block): (title: string)
    ensures block.titles != [] ==> title == Strip(block.titles[0])
    ensures title == "" <==> block.titles == [] || AllSpace(block.titles[0])
    ensures title != "" ==> !IsSpace(title[0]) && !IsSpace(title[|title| - 1])
  {
    if block.titles != [] then Strip(block.titles[0]) else ""
  }

  function StripAll(parts: seq<string>): (r: seq<string>)
    ensures |r| == |parts|
    ensures forall i :: 0 <= i < |parts| ==> r[i] == Strip(parts[i])
  {
    seq(|parts|, i requires 0 <= i < |parts| => Strip(parts[i]))
  }

  /** `extract_course_description`: the stripped paragraph texts joined by
      single spaces. It is empty exactly when there is no paragraph, or one
      paragraph that is all white space. */
  function ExtractCourseDescription(block: Block): (description: string)
    ensures block.texts != [] ==> description == Join(" ", StripAll(block.texts))
    ensures description == "" <==>
              block.texts == [] || (|block.texts| == 1 && AllSpace(block.texts[0]))
  {
    if block.texts != [] then
      JoinEmpty(" ", StripAll(block.texts));
      Join(" ", StripAll(block.texts))
    else ""
  }

  /** Whitespace-only paragraphs are not dropped: `k` of them give `k - 1`
      spaces, not the empty description. */
  lemma WhitespaceParagraphsKeepSeparators(block: Block)
    requires |block.texts| > 0
    requires forall i :: 0 <= i < |block.texts| ==> AllSpace(block.texts[i])
    ensures ExtractCourseDescription(block) == Repeat(' ', |block.texts| - 1)
  {
    JoinOfEmpties(StripAll(block.texts));
  }

  /** A card with one title and at most one paragraph, each already free of
      surrounding white space, reads back exactly those texts. */
  lemma TrimmedCardTexts(block: Block)
    requires |block.titles| == 1 && block.titles[0] != ""
    requires !IsSpace(block.titles[0][0]) && !IsSpace(block.titles[0][|block.titles[0]| - 1])
    requires |block.texts| <= 1
    requires forall i :: 0 <= i < |block.texts| ==>
               block.texts[i] != "" && !IsSpace(block.texts[i][0]) && !IsSpace(block.texts[i][|block.texts[i]| - 1])
    ensures ExtractCourseTitle(block) == block.titles[0]
    ensures ExtractCourseDescription(block) == if block.texts == [] then "" else block.texts[0]
  {
    var t := block.titles[0];
    assert ExtractCourseTitle(block) == Strip(t);
    StripTrimmed(t);
    if block.texts != [] {
      var p := block.texts[0];
      assert p != "" && !IsSpace(p[0]) && !IsSpace(p[|p| - 1]);
      TrimmedParagraph(block.texts);
      assert ExtractCourseDescription(block) == Join(" ", StripAll(block.texts));
    }
  }

  lemma TrimmedParagraph(texts: seq<string>)
    requires |texts| == 1 && texts[0] != ""
    requires !IsSpace(texts[0][0]) && !IsSpace(texts[0][|texts[0]| - 1])
    ensures Join(" ", StripAll(texts)) == texts[0]
  {
    var q := StripAll(texts);
    assert |q| == 1 && q[0] == Strip(texts[0]);
    StripTrimmed(texts[0]);
    assert q == [texts[0]];
    JoinOne(" ", q);
  }
}
