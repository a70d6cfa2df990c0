/**
 What the default configuration's two article templates turn into. Both
 templates are a fixed frame of markdown around placeholder slots; the frame
 uses no character a placeholder could start with or run into, so each
 replacement pass works slot by slot.
 */
module DefaultTemplates {
  import opened Replace
  import opened Settings
  import opened WebsiteParser

  /** The frame of the default readable-article template. */
  const ParsableHead: string := "[[ReadItLater]] [[Article]]\n\n# ["
  const ParsableTail: string := ")\n\n"

  /** The frame of the default nonreadable-article template. */
  const NotParsableHead: string := "[[ReadItLater]] [[Article]]\n\n["
  const NotParsableTail: string := ")"

  /** The markdown between a link's text and its target. */
  const LinkMiddle: string := "]("

  // ---------------------------------------------------------------------
  // The two default templates, slot by slot
  // ---------------------------------------------------------------------

  lemma ParsableSlots1()
    ensures "[[ReadItLater]] [[Article]]\n\n# [%articleTitle%](%articleURL%)\n\n%articleContent%"
         == "[[ReadItLater]] [[Article]]\n\n# [%articleTitle%](%articleURL%)\n\n" + "%articleContent%"
  {
  }

  lemma ParsableSlots2()
    ensures "[[ReadItLater]] [[Article]]\n\n# [%articleTitle%](%articleURL%)\n\n"
         == "[[ReadItLater]] [[Article]]\n\n# [%articleTitle%](%articleURL%" + ")\n\n"
  {
  }

  lemma ParsableSlots3()
    ensures "[[ReadItLater]] [[Article]]\n\n# [%articleTitle%](%articleURL%"
         == "[[ReadItLater]] [[Article]]\n\n# [%articleTitle%](" + "%articleURL%"
  {
  }

  lemma ParsableSlots4()
    ensures "[[ReadItLater]] [[Article]]\n\n# [%articleTitle%]("
         == "[[ReadItLater]] [[Article]]\n\n# [" + "%articleTitle%" + "]("
  {
  }

  /** The default readable-article template is the readable frame with the
      title, URL and content placeholders in its three slots. */
  lemma DefaultParsableTemplate()
    ensures DefaultSettings().parsableArticleNote == DefaultParsableArticleNote
    ensures DefaultParsableArticleNote
         == ParsableHead + ArticleTitleToken + LinkMiddle + ArticleUrlToken + ParsableTail + ArticleContentToken
  {
    ParsableSlots1();
    ParsableSlots2();
    ParsableSlots3();
    ParsableSlots4();
  }

  lemma NotParsableSlots1()
    ensures "[[ReadItLater]] [[Article]]\n\n[%articleURL%](%articleURL%)"
         == "[[ReadItLater]] [[Article]]\n\n[%articleURL%](" + "%articleURL%" + ")"
  {
  }

  lemma NotParsableSlots2()
    ensures "[[ReadItLater]] [[Article]]\n\n[%articleURL%]("
         == "[[ReadItLater]] [[Article]]\n\n[" + "%articleURL%" + "]("
  {
  }

  /** The default nonreadable-article template is the nonreadable frame with
      the URL placeholder in both the link text and the link target. */
  lemma DefaultNotParsableTemplate()
    ensures DefaultSettings().notParsableArticleNote == DefaultNotParsableArticleNote
    ensures DefaultNotParsableArticleNote
         == NotParsableHead + ArticleUrlToken + LinkMiddle + ArticleUrlToken + NotParsableTail
  {
    NotParsableSlots1();
    NotParsableSlots2();
  }

  // ---------------------------------------------------------------------
  // Frames
  // ---------------------------------------------------------------------

  /** The characters placeholders are spelled with. */
  predicate PlaceholderChar(c: char) {
    c == '%' || 'a' <= c <= 'z' || 'A' <= c <= 'Z'
  }

  /** A pattern spelled with placeholder characters only, starting with `%`. */
  predicate PlaceholderWord(pat: string) {
    |pat| > 0 && pat[0] == '%' && forall k :: 0 <= k < |pat| ==> PlaceholderChar(pat[k])
  }

  /** A frame piece: non-empty, without `%`, and starting and ending with a
      character no placeholder uses. */
  predicate FramePiece(p: string) {
    p != [] && '%' !in p && !PlaceholderChar(p[0]) && !PlaceholderChar(p[|p| - 1])
  }

  /** A frame piece holds no occurrence of a placeholder word and no
      occurrence can run into it from either side. */
  lemma FramePieceSeparates(p: string, pat: string)
    requires FramePiece(p) && PlaceholderWord(pat)
    ensures pat[0] !in p && p[0] !in pat && p[|p| - 1] !in pat
    ensures Absent(p, pat)
  {
    AbsentWithoutHead(p, pat);
  }

  /** The three article placeholders are placeholder words. */
  lemma ArticlePlaceholderWords()
    ensures PlaceholderWord(ArticleTitleToken)
    ensures PlaceholderWord(ArticleUrlToken)
    ensures PlaceholderWord(ArticleContentToken)
  {
  }

  /** Every piece of both default frames is a frame piece. */
  lemma DefaultFramePieces()
    ensures FramePiece(ParsableHead) && FramePiece(ParsableTail)
    ensures FramePiece(NotParsableHead) && FramePiece(NotParsableTail)
    ensures FramePiece(LinkMiddle)
  {
  }

  /** A frame read left to right nests to the right. */
  lemma FrameNesting(h: string, x: string, m: string, y: string, t: string, z: string)
    ensures h + x + m + y + t + z == h + (x + (m + (y + (t + z))))
  {
    assert h + x + m + y + t + z == (h + x + m + y) + (t + z);
    assert h + x + m + y + (t + z) == (h + x + m) + (y + (t + z));
    assert h + x + m + (y + (t + z)) == (h + x) + (m + (y + (t + z)));
    assert h + x + (m + (y + (t + z))) == h + (x + (m + (y + (t + z))));
  }

  /** `ReplaceAll` over a frame `h x m y t z` replaces inside the slots
      `x`, `y`, `z` only, whatever they hold. */
  lemma {:induction false} ReplaceAllInFrame(h: string, x: string, m: string, y: string, t: string, z: string,
                                             pat: string, rep: string)
    requires FramePiece(h) && FramePiece(m) && FramePiece(t) && PlaceholderWord(pat)
    ensures ReplaceAll(h + x + m + y + t + z, pat, rep)
         == h + ReplaceAll(x, pat, rep) + m + ReplaceAll(y, pat, rep) + t + ReplaceAll(z, pat, rep)
  {
    var s5 := t + z;
    var s4 := y + s5;
    var s3 := m + s4;
    var s2 := x + s3;
    var rx, ry, rz := ReplaceAll(x, pat, rep), ReplaceAll(y, pat, rep), ReplaceAll(z, pat, rep);
    FrameNesting(h, x, m, y, t, z);
    FrameNesting(h, rx, m, ry, t, rz);
    FramePieceSeparates(h, pat);
    FramePieceSeparates(m, pat);
    FramePieceSeparates(t, pat);
    ReplaceAllAbsent(h, pat, rep);
    ReplaceAllAbsent(m, pat, rep);
    ReplaceAllAbsent(t, pat, rep);
    ReplaceAllJoin(t, z, pat, rep);
    assert ReplaceAll(s5, pat, rep) == t + rz;
    assert s5[0] == t[0];
    ReplaceAllJoin(y, s5, pat, rep);
    assert ReplaceAll(s4, pat, rep) == ry + (t + rz);
    ReplaceAllJoin(m, s4, pat, rep);
    assert ReplaceAll(s3, pat, rep) == m + (ry + (t + rz));
    assert s3[0] == m[0];
    ReplaceAllJoin(x, s3, pat, rep);
    assert ReplaceAll(s2, pat, rep) == rx + (m + (ry + (t + rz)));
    ReplaceAllJoin(h, s2, pat, rep);
  }

  /** The matches in a frame are the matches in its slots. */
  lemma {:induction false} CountInFrame(h: string, x: string, m: string, y: string, t: string, z: string,
                                        pat: string)
    requires FramePiece(h) && FramePiece(m) && FramePiece(t) && PlaceholderWord(pat)
    ensures CountMatches(h + x + m + y + t + z, pat)
         == CountMatches(x, pat) + CountMatches(y, pat) + CountMatches(z, pat)
  {
    var s5 := t + z;
    var s4 := y + s5;
    var s3 := m + s4;
    var s2 := x + s3;
    FrameNesting(h, x, m, y, t, z);
    FramePieceSeparates(h, pat);
    FramePieceSeparates(m, pat);
    FramePieceSeparates(t, pat);
    CountAbsent(h, pat);
    CountAbsent(m, pat);
    CountAbsent(t, pat);
    CountJoin(t, z, pat);
    assert s5[0] == t[0];
    CountJoin(y, s5, pat);
    CountJoin(m, s4, pat);
    assert s3[0] == m[0];
    CountJoin(x, s3, pat);
    CountJoin(h, s2, pat);
  }

  // ---------------------------------------------------------------------
  // Placeholder counts
  // ---------------------------------------------------------------------

  /** A pattern matches itself once. */
  lemma CountSelf(pat: string)
    requires |pat| > 0
    ensures CountMatches(pat, pat) == 1
  {
    assert pat[|pat|..] == [];
  }

  /** The article placeholders, and the empty slot. */
  predicate SlotFiller(x: string) {
    x == ArticleTitleToken || x == ArticleUrlToken || x == ArticleContentToken || x == ""
  }

  /** An article placeholder counts once in itself and not at all in another
      slot filler. */
  lemma CountInFiller(x: string, pat: string)
    requires SlotFiller(x)
    requires pat == ArticleTitleToken || pat == ArticleUrlToken || pat == ArticleContentToken
    ensures CountMatches(x, pat) == if x == pat then 1 else 0
  {
    if x == pat {
      CountSelf(pat);
    } else if x != "" {
      ArticlePlaceholders();
      CountAbsent(x, pat);
    }
  }

  /** In a frame whose three slots hold placeholders or nothing, each article
      placeholder is counted once per slot it fills. */
  lemma CountArticlePlaceholderInFrame(h: string, m: string, t: string, a: string, b: string, c: string, pat: string)
    requires FramePiece(h) && FramePiece(m) && FramePiece(t)
    requires pat == ArticleTitleToken || pat == ArticleUrlToken || pat == ArticleContentToken
    requires SlotFiller(a) && SlotFiller(b) && SlotFiller(c)
    ensures CountMatches(h + a + m + b + t + c, pat)
         == (if a == pat then 1 else 0) + (if b == pat then 1 else 0) + (if c == pat then 1 else 0)
  {
    ArticlePlaceholderWords();
    CountInFrame(h, a, m, b, t, c, pat);
    CountInFiller(a, pat);
    CountInFiller(b, pat);
    CountInFiller(c, pat);
  }

  /** The default readable-article template holds each of its three
      placeholders exactly once. */
  lemma DefaultParsableCounts()
    ensures CountMatches(DefaultParsableArticleNote, ArticleTitleToken) == 1
    ensures CountMatches(DefaultParsableArticleNote, ArticleUrlToken) == 1
    ensures CountMatches(DefaultParsableArticleNote, ArticleContentToken) == 1
  {
    DefaultParsableTemplate();
    DefaultFramePieces();
    var T, U, K := ArticleTitleToken, ArticleUrlToken, ArticleContentToken;
    CountArticlePlaceholderInFrame(ParsableHead, LinkMiddle, ParsableTail, T, U, K, T);
    CountArticlePlaceholderInFrame(ParsableHead, LinkMiddle, ParsableTail, T, U, K, U);
    CountArticlePlaceholderInFrame(ParsableHead, LinkMiddle, ParsableTail, T, U, K, K);
  }

  /** The default nonreadable-article template holds the URL placeholder
      exactly twice. */
  lemma DefaultNotParsableCount()
    ensures CountMatches(DefaultNotParsableArticleNote, ArticleUrlToken) == 2
  {
    DefaultNotParsableTemplate();
    DefaultFramePieces();
    var U := ArticleUrlToken;
    CountArticlePlaceholderInFrame(NotParsableHead, LinkMiddle, NotParsableTail, U, U, "", U);
    assert NotParsableHead + U + LinkMiddle + U + NotParsableTail + ""
        == NotParsableHead + U + LinkMiddle + U + NotParsableTail;
  }

  // ---------------------------------------------------------------------
  // Rendering the defaults
  // ---------------------------------------------------------------------

  /** Rendering the default readable-article template: the title slot gets
      the title with its URL and content placeholders substituted, the link
      target gets the URL with its content placeholders substituted, and the
      content slot gets the converted content verbatim. */
  lemma RenderDefaultParsable(title: string, url: string, content: string)
    ensures RenderParsable(DefaultParsableArticleNote, title, url, content)
         == ParsableHead
            + ReplaceAll(ReplaceAll(title, ArticleUrlToken, url), ArticleContentToken, content)
            + LinkMiddle
            + ReplaceAll(url, ArticleContentToken, content)
            + ParsableTail
            + content
  {
    DefaultParsableTemplate();
    DefaultFramePieces();
    ArticlePlaceholderWords();
    ArticlePlaceholders();
    var T, U, K := ArticleTitleToken, ArticleUrlToken, ArticleContentToken;
    // title pass
    ReplaceAllInFrame(ParsableHead, T, LinkMiddle, U, ParsableTail, K, T, title);
    ReplaceWholeToken(T, title);
    ReplaceAllAbsent(U, T, title);
    ReplaceAllAbsent(K, T, title);
    // URL pass
    ReplaceAllInFrame(ParsableHead, title, LinkMiddle, U, ParsableTail, K, U, url);
    ReplaceWholeToken(U, url);
    ReplaceAllAbsent(K, U, url);
    // content pass
    var title' := ReplaceAll(title, U, url);
    ReplaceAllInFrame(ParsableHead, title', LinkMiddle, url, ParsableTail, K, K, content);
    ReplaceWholeToken(K, content);
  }

  /** The parser's single URL replacement on a template that starts with a
      frame piece and a URL placeholder fills that placeholder only. */
  lemma RenderNotParsableAfterPiece(h: string, rest: string, url: string)
    requires FramePiece(h)
    ensures RenderNotParsable(h + ArticleUrlToken + rest, url) == h + url + rest
  {
    ArticlePlaceholderWords();
    FramePieceSeparates(h, ArticleUrlToken);
    ReplaceFirstAfterPrefix(h, rest, ArticleUrlToken, url);
  }

  /** Rendering the default nonreadable-article template replaces the link
      text only: the link target keeps a literal URL placeholder. */
  lemma RenderDefaultNotParsable(url: string)
    ensures RenderNotParsable(DefaultNotParsableArticleNote, url)
         == NotParsableHead + url + LinkMiddle + ArticleUrlToken + NotParsableTail
  {
    DefaultNotParsableTemplate();
    DefaultFramePieces();
    var h, U := NotParsableHead, ArticleUrlToken;
    var rest := LinkMiddle + U + NotParsableTail;
    assert h + U + LinkMiddle + U + NotParsableTail == h + U + rest;
    RenderNotParsableAfterPiece(h, rest, url);
    assert h + url + rest == h + url + LinkMiddle + U + NotParsableTail;
  }

  /** After rendering the default nonreadable template, exactly one more URL
      placeholder is left than the URL itself brings in. */
  lemma RenderDefaultNotParsableLeavesOne(url: string)
    ensures CountMatches(RenderNotParsable(DefaultNotParsableArticleNote, url), ArticleUrlToken)
         == CountMatches(url, ArticleUrlToken) + 1
  {
    RenderDefaultNotParsable(url);
    DefaultFramePieces();
    ArticlePlaceholderWords();
    var U := ArticleUrlToken;
    CountInFrame(NotParsableHead, url, LinkMiddle, U, NotParsableTail, "", U);
    CountSelf(U);
    assert NotParsableHead + url + LinkMiddle + U + NotParsableTail + ""
        == NotParsableHead + url + LinkMiddle + U + NotParsableTail;
  }

  /** Replacing every URL placeholder of the default nonreadable template
      would fill both the link text and the link target. */
  lemma ReplaceAllDefaultNotParsable(url: string)
    ensures ReplaceAll(DefaultNotParsableArticleNote, ArticleUrlToken, url)
         == NotParsableHead + url + LinkMiddle + url + NotParsableTail
  {
    DefaultNotParsableTemplate();
    DefaultFramePieces();
    ArticlePlaceholderWords();
    var U := ArticleUrlToken;
    ReplaceAllInFrame(NotParsableHead, U, LinkMiddle, U, NotParsableTail, "", U, url);
    ReplaceWholeToken(U, url);
    assert NotParsableHead + U + LinkMiddle + U + NotParsableTail + ""
        == NotParsableHead + U + LinkMiddle + U + NotParsableTail;
    assert NotParsableHead + url + LinkMiddle + url + NotParsableTail + ""
        == NotParsableHead + url + LinkMiddle + url + NotParsableTail;
  }

  /** As written, the default nonreadable note of any URL still holds a URL
      placeholder: the link target is never filled in. */
  lemma DefaultNotParsableKeepsPlaceholder(url: string)
    ensures !Absent(RenderNotParsable(DefaultNotParsableArticleNote, url), ArticleUrlToken)
  {
    RenderDefaultNotParsable(url);
    var a := NotParsableHead + url + LinkMiddle;
    var r := a + ArticleUrlToken + NotParsableTail;
    assert r[|a|..|a| + |ArticleUrlToken|] == ArticleUrlToken;
    assert OccursAt(r, ArticleUrlToken, |a|);
  }

  /** With every placeholder replaced, the default nonreadable note of a URL
      without `%` links the URL to itself and holds no URL placeholder. */
  lemma DefaultNotParsableGlobal(url: string)
    requires '%' !in url
    ensures RenderNotParsableGlobal(DefaultNotParsableArticleNote, url)
         == NotParsableHead + url + LinkMiddle + url + NotParsableTail
    ensures Absent(RenderNotParsableGlobal(DefaultNotParsableArticleNote, url), ArticleUrlToken)
  {
    ReplaceAllDefaultNotParsable(url);
    DefaultFramePieces();
    var r := NotParsableHead + url + LinkMiddle + url + NotParsableTail;
    assert '%' !in r;
    AbsentWithoutHead(r, ArticleUrlToken);
  }

  /** On the default nonreadable template the single replacement the parser
      performs agrees with a global one only for the one URL that is the
      placeholder itself. */
  lemma DefaultNotParsableDiverges(url: string)
    ensures RenderNotParsable(DefaultNotParsableArticleNote, url)
         == RenderNotParsableGlobal(DefaultNotParsableArticleNote, url)
        <==> url == ArticleUrlToken
  {
    RenderDefaultNotParsable(url);
    ReplaceAllDefaultNotParsable(url);
    var a := NotParsableHead + url + LinkMiddle;
    var first := a + ArticleUrlToken + NotParsableTail;
    var all := a + url + NotParsableTail;
    if first == all {
      assert |ArticleUrlToken| == |url|;
      assert first[|a|..|a| + |url|] == ArticleUrlToken;
      assert all[|a|..|a| + |url|] == url;
    }
  }

  // ---------------------------------------------------------------------
  // Notes built with the default configuration
  // ---------------------------------------------------------------------

  /** With the default configuration, a readable page whose title and URL
      hold no `%` becomes a note named after the title whose body links the
      title to the URL, followed by the converted content. */
  lemma DefaultReadableNote(article: Article, url: string, convert: (string, string) -> string, date: string)
    requires article.content != ""
    requires '%' !in article.title && '%' !in url
    ensures var title := DefaultTitle(article.title);
      PrepareNote(DefaultSettings(), Some(article), url, convert, date)
      == Note(title + ".md",
              ParsableHead + title + LinkMiddle + url + ParsableTail
              + convert(article.content, DefaultAssetsDir))
  {
    var d := DefaultSettings();
    DefaultParsableTemplate();
    assert d.assetsDir == DefaultAssetsDir;
    var title := DefaultTitle(article.title);
    var content := convert(article.content, DefaultAssetsDir);
    assert '%' !in title;
    RenderDefaultParsable(title, url, content);
    AbsentWithoutHead(title, ArticleUrlToken);
    AbsentWithoutHead(title, ArticleContentToken);
    AbsentWithoutHead(url, ArticleContentToken);
    ReplaceAllAbsent(title, ArticleUrlToken, url);
    ReplaceAllAbsent(title, ArticleContentToken, content);
    ReplaceAllAbsent(url, ArticleContentToken, content);
  }

  /** With the default configuration, an unreadable page becomes a
      date-stamped note that links the URL once and leaves the link target
      as a literal placeholder. */
  lemma DefaultUnreadableNote(result: Option<Article>, url: string, convert: (string, string) -> string,
                              date: string)
    requires !Readable(result)
    ensures PrepareNote(DefaultSettings(), result, url, convert, date)
         == Note("Article (" + date + ").md",
                 NotParsableHead + url + LinkMiddle + ArticleUrlToken + NotParsableTail)
  {
    DefaultNotParsableTemplate();
    RenderDefaultNotParsable(url);
  }
}
