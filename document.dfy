/** The HTML document the service renders (`buildHtml`). */
module Document {
  import opened Wrappers
  import opened Escape

  /** The inputs of `buildHtml`: the custom stylesheet may be absent. */
  datatype HtmlOptions = HtmlOptions(title: string, body: string, baseCss: string, customCss: Option<string>)

  /** The tags that delimit the stylesheet and the body fragment; the title
      tags are `TitleOpen` and `TitleEnd` below. */
  const StyleOpen: string := "<style>"
  const StyleClose: string := "</style>"
  const BodyOpen: string := "<body>\n        "
  const BodyClose: string := "\n      </body>"

  /** The fixed markup of the template, in order, with its whitespace. */
  const Head: string := HeadLines + TitleOpen
  const TitleToStyle: string := TitleEnd + StyleOpen
  const StyleToBody: string := StyleClose + HeadEnd + BodyOpen
  const Tail: string := BodyClose + HtmlEnd

  const HeadLines: string :=
    "\n    <!DOCTYPE html>" + "\n    <html>" + "\n      <head>" + "\n        <meta charset=\"utf-8\" />" + "\n        "
  const TitleOpen: string := "<title>"
  const TitleEnd: string := "</title>\n        "
  const HeadEnd: string := "\n      </head>\n      "
  const HtmlEnd: string := "\n    </html>\n  "

  /** `customCss ?? ""`: the custom rules, or none when they are absent. */
  function CustomRules(customCss: Option<string>): string {
    match customCss
    case None => ""
    case Some(c) => c
  }

  /** `baseCss + (customCss ?? "")`: the base rules, then the custom rules
      if any, so that custom rules win the cascade on equal specificity. */
  function Stylesheet(baseCss: string, customCss: Option<string>): (css: string)
    ensures baseCss <= css
    ensures customCss.None? ==> css == baseCss
    ensures customCss.Some? ==> css[|baseCss|..] == customCss.value
  {
    baseCss + CustomRules(customCss)
  }

  /** Concatenation of the pieces of a template, in order. */
  function Join(parts: seq<string>): string {
    if parts == [] then "" else parts[0] + Join(parts[1..])
  }

  /** `buildHtml`: the template literal, as the fixed markup around the
      escaped title, the stylesheet and the body fragment; total over its
      inputs, it opens with the fixed head and closes with the fixed tail. */
  function BuildHtml(o: HtmlOptions): (doc: string)
    ensures Head <= doc
    ensures |Tail| <= |doc| && doc[|doc| - |Tail|..] == Tail
  {
    TemplateEnds(Head, EscapeHtml(o.title), TitleToStyle, Stylesheet(o.baseCss, o.customCss), StyleToBody, o.body, Tail);
    Join([Head, EscapeHtml(o.title), TitleToStyle, Stylesheet(o.baseCss, o.customCss), StyleToBody, o.body, Tail])
  }

  /** The longest prefix of `s` without `c`. */
  function TakeUntil(s: string, c: char): (r: string)
    ensures r <= s && c !in r
    ensures |r| < |s| ==> s[|r|] == c
  {
    if s == [] || s[0] == c then [] else [s[0]] + TakeUntil(s[1..], c)
  }

  /** How a reader finds the title: after the fixed head, the text up to the
      next tag. */
  function ReadTitle(doc: string): (t: Option<string>)
    ensures t.Some? <==> Head <= doc
    ensures t.Some? ==> '<' !in t.value
  {
    if Head <= doc then Some(TakeUntil(doc[|Head|..], '<')) else None
  }

  /** Index of the first character of the stylesheet in the document. */
  function StyleOffset(title: string): nat {
    |Head| + |EscapeHtml(title)| + |TitleToStyle|
  }

  /** Index of the first character of the body fragment in the document. */
  function BodyOffset(o: HtmlOptions): nat {
    StyleOffset(o.title) + |Stylesheet(o.baseCss, o.customCss)| + |StyleToBody|
  }

  lemma {:induction false} TakeUntilAppend(a: string, b: string, c: char)
    requires c !in a && |b| > 0 && b[0] == c
    ensures TakeUntil(a + b, c) == a
  {
    if a == [] {
      assert a + b == b;
    } else {
      assert (a + b)[0] == a[0];
      assert (a + b)[1..] == a[1..] + b;
      TakeUntilAppend(a[1..], b, c);
      assert [a[0]] + a[1..] == a;
    }
  }

  // ---------------------------------------------------------------------
  // Layout of any seven-piece template, stated over abstract pieces

  lemma JoinSeven(a: string, b: string, c: string, d: string, e: string, f: string, g: string)
    ensures Join([a, b, c, d, e, f, g]) == a + (b + (c + (d + (e + (f + g)))))
  {
    assert [a, b, c, d, e, f, g][1..] == [b, c, d, e, f, g];
    assert [b, c, d, e, f, g][1..] == [c, d, e, f, g];
    assert [c, d, e, f, g][1..] == [d, e, f, g];
    assert [d, e, f, g][1..] == [e, f, g];
    assert [e, f, g][1..] == [f, g];
    assert [f, g][1..] == [g];
    assert [g][1..] == [];
    assert Join([g]) == g;
    assert Join([f, g]) == f + g;
    assert Join([e, f, g]) == e + (f + g);
    assert Join([d, e, f, g]) == d + (e + (f + g));
    assert Join([c, d, e, f, g]) == c + (d + (e + (f + g)));
    assert Join([b, c, d, e, f, g]) == b + (c + (d + (e + (f + g))));
  }

  lemma TemplateEnds(a: string, b: string, c: string, d: string, e: string, f: string, g: string)
    ensures var doc := Join([a, b, c, d, e, f, g]);
      && a <= doc && |g| <= |doc| && doc[|doc| - |g|..] == g
  {
    JoinSeven(a, b, c, d, e, f, g);
    var doc := Join([a, b, c, d, e, f, g]);
    assert doc == a + (b + c + d + e + f) + g;
  }

  lemma TemplateAfterFirst(a: string, b: string, c: string, d: string, e: string, f: string, g: string)
    ensures var doc, rest := Join([a, b, c, d, e, f, g]), Join([c, d, e, f, g]);
      && a <= doc && doc[|a|..] == b + rest && |c| <= |rest| && rest[..|c|] == c
  {
    JoinSeven(a, b, c, d, e, f, g);
    var rest := Join([c, d, e, f, g]);
    assert [c, d, e, f, g][1..] == [d, e, f, g];
    assert rest == c + Join([d, e, f, g]);
  }

  /** `mid` occurs in `doc` at index `p`, right after `open` and right
      before `close`. */
  predicate Framed(doc: string, p: int, open: string, mid: string, close: string) {
    && |open| <= p && p + |mid| + |close| <= |doc|
    && doc[p - |open|..p] == open
    && doc[p..p + |mid|] == mid
    && doc[p + |mid|..p + |mid| + |close|] == close
  }

  lemma TemplateFourth(a: string, b: string, c: string, d: string, e: string, f: string, g: string,
                       c1: string, d1: string, d2: string, e1: string, e2: string, open: string, close: string,
                       doc: string, p: int)
    requires c == c1 + open && d == d1 + d2 && e == (close + e1) + e2
    requires doc == Join([a, b, c, d, e, f, g]) && p == |a| + |b| + |c|
    ensures Framed(doc, p, open, d1, d2 + close)
  {
    JoinSeven(a, b, c, d, e, f, g);
    StartsWithPiece(close, e1, e2);
    FramedSplitPiece(c, d, e + (f + g), c1, d1, d2, open, close);
    FramedShiftTwice(a, b, c + (d + (e + (f + g))), |c|, open, d1, d2 + close);
  }

  /** `close + e1 + e2` starts with `close`. */
  lemma StartsWithPiece(close: string, e1: string, e2: string)
    ensures |close| <= |(close + e1) + e2| && ((close + e1) + e2)[..|close|] == close
  {
    assert ((close + e1) + e2)[..|close|] == (close + e1)[..|close|];
  }

  /** The first part `d1` of a piece `d`, between `c` ending in `open` and a
      rest starting with `close`. */
  lemma FramedSplitPiece(c: string, d: string, rest: string, c1: string, d1: string, d2: string,
                         open: string, close: string)
    requires c == c1 + open && d == d1 + d2
    requires |close| <= |rest| && rest[..|close|] == close
    ensures Framed(c + (d + rest), |c|, open, d1, d2 + close)
  {
    assert d + rest == d1 + (d2 + rest);
    Suffix(c1, open);
    PrefixThrough(d2, rest, close);
    FramedIn(c, d1, d2 + rest, open, d2 + close);
  }

  lemma TemplateSixth(a: string, b: string, c: string, d: string, e: string, f: string, g: string,
                      e1: string, open: string, doc: string, q: int)
    requires e == e1 + open
    requires doc == Join([a, b, c, d, e, f, g]) && q == |a| + |b| + |c| + |d| + |e|
    ensures Framed(doc, q, open, f, g)
  {
    JoinSeven(a, b, c, d, e, f, g);
    Suffix(e1, open);
    assert g[..|g|] == g;
    FramedIn(e, f, g, open, g);
    FramedShiftTwice(c, d, e + (f + g), |e|, open, f, g);
    FramedShiftTwice(a, b, c + (d + (e + (f + g))), |c| + (|d| + |e|), open, f, g);
  }

  lemma TemplateSecond(a: string, b: string, c: string, d: string, e: string, f: string, g: string,
                       a1: string, c2: string, open: string, close: string, doc: string, p: int)
    requires a == a1 + open && c == close + c2
    requires doc == Join([a, b, c, d, e, f, g]) && p == |a|
    ensures Framed(doc, p, open, b, close)
  {
    JoinSeven(a, b, c, d, e, f, g);
    Suffix(a1, open);
    StartsWithPiece(close, c2, d + (e + (f + g)));
    FramedIn(a, b, c + (d + (e + (f + g))), open, close);
  }

  /** A piece between a prefix ending in `open` and a suffix starting with
      `close` is framed by them. */
  lemma FramedIn(pre: string, mid: string, post: string, open: string, close: string)
    requires |open| <= |pre| && pre[|pre| - |open|..] == open
    requires |close| <= |post| && post[..|close|] == close
    ensures Framed(pre + (mid + post), |pre|, open, mid, close)
  {
    var s := pre + (mid + post);
    assert s[|pre| - |open|..|pre|] == pre[|pre| - |open|..];
    assert s[|pre|..|pre| + |mid|] == mid;
    assert s[|pre| + |mid|..|pre| + |mid| + |close|] == post[..|close|];
  }

  /** A framed piece stays framed when text is put in front. */
  lemma FramedShift(x: string, y: string, p: int, open: string, mid: string, close: string)
    requires Framed(y, p, open, mid, close)
    ensures Framed(x + y, |x| + p, open, mid, close)
  {
    var s, q := x + y, |x| + p;
    assert s[q - |open|..q] == y[p - |open|..p];
    assert s[q..q + |mid|] == y[p..p + |mid|];
    assert s[q + |mid|..q + |mid| + |close|] == y[p + |mid|..p + |mid| + |close|];
  }

  lemma FramedShiftTwice(x1: string, x2: string, y: string, p: int, open: string, mid: string, close: string)
    requires Framed(y, p, open, mid, close)
    ensures Framed(x1 + (x2 + y), |x1| + (|x2| + p), open, mid, close)
  {
    FramedShift(x2, y, p, open, mid, close);
    FramedShift(x1, x2 + y, |x2| + p, open, mid, close);
  }

  /** The start of `d2 + rest` when `rest` starts with `close`. */
  lemma PrefixThrough(d2: string, rest: string, close: string)
    requires |close| <= |rest| && rest[..|close|] == close
    ensures |d2 + close| <= |d2 + rest| && (d2 + rest)[..|d2 + close|] == d2 + close
  {
    assert (d2 + rest)[..|d2 + close|] == d2 + rest[..|close|];
  }

  /** With nothing framed, what follows `open` can be framed instead. */
  lemma FramedFromEmpty(doc: string, p: int, open: string, mid: string, close: string)
    requires Framed(doc, p, open, "", mid + close)
    ensures Framed(doc, p, open, mid, close)
  {
    assert doc[p..p + |mid|] == (mid + close)[..|mid|];
    assert doc[p + |mid|..p + |mid| + |close|] == (mid + close)[|mid|..];
  }

  lemma Suffix(x: string, y: string)
    ensures |y| <= |x + y| && (x + y)[|x + y| - |y|..] == y
  {
  }

  // ---------------------------------------------------------------------
  // The document built by `buildHtml`

  /** The title element holds the escaped title and nothing else: the
      escaped title stands between `<title>` and `</title>`, it cannot close
      the element early, and unescaping gives the title back. */
  lemma TitleElementReadsBack(o: HtmlOptions)
    ensures Framed(BuildHtml(o), |Head|, TitleOpen, EscapeHtml(o.title), TitleEnd)
    ensures ReadTitle(BuildHtml(o)) == Some(EscapeHtml(o.title))
    ensures Unescape(ReadTitle(BuildHtml(o)).value) == o.title
  {
    TemplateSecond(Head, EscapeHtml(o.title), TitleToStyle, Stylesheet(o.baseCss, o.customCss), StyleToBody, o.body, Tail,
                   HeadLines, StyleOpen, TitleOpen, TitleEnd, BuildHtml(o), |Head|);
    var et, css := EscapeHtml(o.title), Stylesheet(o.baseCss, o.customCss);
    TemplateAfterFirst(Head, et, TitleToStyle, css, StyleToBody, o.body, Tail);
    var rest := Join([TitleToStyle, css, StyleToBody, o.body, Tail]);
    assert TitleToStyle[0] == '<';
    assert rest[0] == TitleToStyle[0];
    TakeUntilAppend(et, rest, '<');
    EscapeHtmlRoundTrip(o.title);
  }

  /** Documents that differ in title differ. */
  lemma BuildHtmlTitleInjective(o1: HtmlOptions, o2: HtmlOptions)
    ensures BuildHtml(o1) == BuildHtml(o2) ==> o1.title == o2.title
  {
    TitleElementReadsBack(o1);
    TitleElementReadsBack(o2);
  }

  /** The style element holds the base rules, followed by the custom rules
      and the closing tag. */
  lemma StyleElementBaseThenCustom(o: HtmlOptions)
    ensures Framed(BuildHtml(o), StyleOffset(o.title), StyleOpen, o.baseCss, CustomRules(o.customCss) + StyleClose)
  {
    TemplateFourth(Head, EscapeHtml(o.title), TitleToStyle, Stylesheet(o.baseCss, o.customCss), StyleToBody, o.body, Tail,
                   TitleEnd, o.baseCss, CustomRules(o.customCss), HeadEnd, BodyOpen, StyleOpen, StyleClose,
                   BuildHtml(o), StyleOffset(o.title));
  }

  /** The body fragment is inserted unescaped, right after the opening body
      tag and right before the closing markup. */
  lemma BodyInsertedVerbatim(o: HtmlOptions)
    ensures Framed(BuildHtml(o), BodyOffset(o), BodyOpen, o.body, Tail)
  {
    TemplateSixth(Head, EscapeHtml(o.title), TitleToStyle, Stylesheet(o.baseCss, o.customCss), StyleToBody, o.body, Tail,
                  StyleClose + HeadEnd, BodyOpen, BuildHtml(o), BodyOffset(o));
  }
}
