/**
 Note construction for a web page. The fetch, the HTML parse, the sanitizer
 and the readability extraction are outside the model; their combined
 outcome reaches `PrepareNote` as an `Option<Article>`. The HTML-to-markdown
 converter and the filename date stamp are parameters.
 */
module WebsiteParser {
  import opened Replace
  import opened Settings

  datatype Option<+T> = None | Some(value: T)

  /** What readability extracts from a page: a title and the article's HTML. */
  datatype Article = Article(title: string, content: string)

  /** The note handed to the vault: a file name and the rendered body. */
  datatype Note = Note(fileName: string, content: string)

  /** The placeholders of the readable-article template. */
  const ArticleTitleToken: string := "%articleTitle%"
  const ArticleUrlToken: string := "%articleURL%"
  const ArticleContentToken: string := "%articleContent%"

  /** The title used when readability finds none. */
  const NoTitle: string := "No title"

  /** A placeholder: a name without `%` between two `%` characters. */
  predicate IsPlaceholder(x: string) {
    |x| >= 3 && x[0] == '%' && x[|x| - 1] == '%' && '%' !in x[1..|x| - 1]
  }

  /** The parser accepts exactly the inputs the shared URL check accepts. */
  function Test(url: string, isValidUrl: string -> bool): (r: bool)
    ensures r <==> isValidUrl(url)
  {
    isValidUrl(url)
  }

  /** An empty title falls back to `NoTitle`; any other title is kept. */
  function DefaultTitle(title: string): (r: string)
    ensures r != ""
    ensures title != "" ==> r == title
    ensures title == "" ==> r == NoTitle
  {
    if title == "" then NoTitle else title
  }

  /** The readable-article body: every title placeholder, then every URL
      placeholder, then every content placeholder is replaced. */
  function RenderParsable(template: string, title: string, url: string, content: string): string {
    var withTitle := ReplaceAll(template, ArticleTitleToken, title);
    var withUrl := ReplaceAll(withTitle, ArticleUrlToken, url);
    ReplaceAll(withUrl, ArticleContentToken, content)
  }

  /** The nonreadable-article body: only the first URL placeholder is
      replaced. */
  function RenderNotParsable(template: string, url: string): string {
    ReplaceFirst(template, ArticleUrlToken, url)
  }

  /** The nonreadable-article body with every URL placeholder replaced, the
      way the readable-article body is rendered; the parser itself replaces
      only the first one (see `RenderNotParsable`). */
  function RenderNotParsableGlobal(template: string, url: string): string {
    ReplaceAll(template, ArticleUrlToken, url)
  }

  /** The note for a page readability could extract. */
  function ParsableArticle(settings: ReadItLaterSettings, article: Article, url: string,
                           convert: (string, string) -> string): (n: Note)
    ensures |n.fileName| > |".md"| && n.fileName[|n.fileName| - 3..] == ".md"
    ensures n.fileName[..|n.fileName| - 3] == DefaultTitle(article.title)
  {
    var title := DefaultTitle(article.title);
    var content := convert(article.content, settings.assetsDir);
    Note(title + ".md", RenderParsable(settings.parsableArticleNote, title, url, content))
  }

  /** The note for a page readability could not extract. */
  function NotParsableArticle(settings: ReadItLaterSettings, url: string, date: string): (n: Note)
    ensures n.fileName == "Article (" + date + ").md"
    ensures n.content == RenderNotParsable(settings.notParsableArticleNote, url)
  {
    Note("Article (" + date + ").md", RenderNotParsable(settings.notParsableArticleNote, url))
  }

  /** The extraction produced an article with non-empty content. */
  predicate Readable(result: Option<Article>) {
    result.Some? && result.value.content != ""
  }

  /** Builds the note for `url` from the extraction result. */
  function PrepareNote(settings: ReadItLaterSettings, result: Option<Article>, url: string,
                       convert: (string, string) -> string, date: string): Note
  {
    if Readable(result) then
      ParsableArticle(settings, result.value, url, convert)
    else
      NotParsableArticle(settings, url, date)
  }

  // ---------------------------------------------------------------------
  // Branch choice
  // ---------------------------------------------------------------------

  /** A readable result yields the titled note over the converted content;
      a missing result or one with empty content yields the date-stamped
      note that only links the URL. */
  lemma PrepareNoteBranches(settings: ReadItLaterSettings, result: Option<Article>, url: string,
                            convert: (string, string) -> string, date: string)
    ensures var n := PrepareNote(settings, result, url, convert, date);
      if Readable(result) then
        var title := DefaultTitle(result.value.title);
        && n.fileName == title + ".md"
        && n.content == RenderParsable(settings.parsableArticleNote, title, url,
                                       convert(result.value.content, settings.assetsDir))
      else
        && n.fileName == "Article (" + date + ").md"
        && n.content == RenderNotParsable(settings.notParsableArticleNote, url)
  {
  }

  /** An article whose content is empty is treated exactly like no article:
      its title plays no part. */
  lemma EmptyContentIsNotReadable(settings: ReadItLaterSettings, title: string, url: string,
                                  convert: (string, string) -> string, date: string)
    ensures PrepareNote(settings, Some(Article(title, "")), url, convert, date)
         == PrepareNote(settings, None, url, convert, date)
  {
  }

  /** An article with content but no title is still readable; its file is
      named after the fallback title. */
  lemma EmptyTitleIsReadable(settings: ReadItLaterSettings, content: string, url: string,
                             convert: (string, string) -> string, date: string)
    requires content != ""
    ensures PrepareNote(settings, Some(Article("", content)), url, convert, date).fileName == "No title.md"
  {
  }

  /** The nonreadable note does not depend on the converter, and the
      readable note does not depend on the date. */
  lemma PrepareNoteDependencies(settings: ReadItLaterSettings, result: Option<Article>, url: string,
                                convert: (string, string) -> string, convert': (string, string) -> string,
                                date: string, date': string)
    ensures !Readable(result) ==>
      PrepareNote(settings, result, url, convert, date) == PrepareNote(settings, result, url, convert', date)
    ensures Readable(result) ==>
      PrepareNote(settings, result, url, convert, date) == PrepareNote(settings, result, url, convert, date')
  {
  }

  /** The nonreadable file name is determined by the date alone. */
  lemma NotParsableFileNameIgnoresUrl(settings: ReadItLaterSettings, url: string, url': string, date: string)
    ensures NotParsableArticle(settings, url, date).fileName == NotParsableArticle(settings, url', date).fileName
  {
  }

  // ---------------------------------------------------------------------
  // Placeholders
  // ---------------------------------------------------------------------

  /** A placeholder contains no other placeholder. */
  lemma PlaceholderNotInPlaceholder(s: string, pat: string)
    requires IsPlaceholder(s) && IsPlaceholder(pat) && s != pat
    ensures Absent(s, pat)
  {
    forall i: nat | i <= |s|
      ensures !OccursAt(s, pat, i)
    {
      if i + |pat| <= |s| {
        var w := s[i..i + |pat|];
        if i == 0 && |pat| == |s| {
          assert w == s;
        } else if i > 0 {
          assert s[i] == s[1..|s| - 1][i - 1];
          assert w[0] == s[i] != '%';
        } else {
          assert s[|pat| - 1] == s[1..|s| - 1][|pat| - 2];
          assert w[|pat| - 1] == s[|pat| - 1] != '%';
        }
      }
    }
  }

  /** The three article placeholders are placeholders, and pairwise none
      occurs in another. */
  lemma ArticlePlaceholders()
    ensures IsPlaceholder(ArticleTitleToken) && IsPlaceholder(ArticleUrlToken) && IsPlaceholder(ArticleContentToken)
    ensures Absent(ArticleTitleToken, ArticleUrlToken) && Absent(ArticleTitleToken, ArticleContentToken)
    ensures Absent(ArticleUrlToken, ArticleTitleToken) && Absent(ArticleUrlToken, ArticleContentToken)
    ensures Absent(ArticleContentToken, ArticleTitleToken) && Absent(ArticleContentToken, ArticleUrlToken)
  {
    assert ArticleTitleToken[1..|ArticleTitleToken| - 1] == "articleTitle";
    assert ArticleUrlToken[1..|ArticleUrlToken| - 1] == "articleURL";
    assert ArticleContentToken[1..|ArticleContentToken| - 1] == "articleContent";
    PlaceholderNotInPlaceholder(ArticleTitleToken, ArticleUrlToken);
    PlaceholderNotInPlaceholder(ArticleTitleToken, ArticleContentToken);
    PlaceholderNotInPlaceholder(ArticleUrlToken, ArticleTitleToken);
    PlaceholderNotInPlaceholder(ArticleUrlToken, ArticleContentToken);
    PlaceholderNotInPlaceholder(ArticleContentToken, ArticleTitleToken);
    PlaceholderNotInPlaceholder(ArticleContentToken, ArticleUrlToken);
  }

  // ---------------------------------------------------------------------
  // Rendering
  // ---------------------------------------------------------------------

  /** A template without any of the three placeholders renders to itself;
      other placeholders such as `%date%` or `%author%` stay literal. */
  lemma RenderParsableWithoutPlaceholders(template: string, title: string, url: string, content: string)
    requires Absent(template, ArticleTitleToken)
    requires Absent(template, ArticleUrlToken)
    requires Absent(template, ArticleContentToken)
    ensures RenderParsable(template, title, url, content) == template
  {
    ReplaceAllAbsent(template, ArticleTitleToken, title);
    ReplaceAllAbsent(template, ArticleUrlToken, url);
    ReplaceAllAbsent(template, ArticleContentToken, content);
  }

  /** Any other placeholder is left as it is. */
  lemma RenderParsableKeepsOtherPlaceholder(x: string, title: string, url: string, content: string)
    requires IsPlaceholder(x)
    requires x != ArticleTitleToken && x != ArticleUrlToken && x != ArticleContentToken
    ensures RenderParsable(x, title, url, content) == x
  {
    ArticlePlaceholders();
    PlaceholderNotInPlaceholder(x, ArticleTitleToken);
    PlaceholderNotInPlaceholder(x, ArticleUrlToken);
    PlaceholderNotInPlaceholder(x, ArticleContentToken);
    RenderParsableWithoutPlaceholders(x, title, url, content);
  }

  /** `%date%` is a placeholder other than the article's three. */
  lemma DatePlaceholder()
    ensures IsPlaceholder("%date%")
    ensures "%date%" != ArticleTitleToken && "%date%" != ArticleUrlToken && "%date%" != ArticleContentToken
  {
    var x := "%date%";
    assert x[1..|x| - 1] == "date";
  }

  /** `%author%` is a placeholder other than the article's three. */
  lemma AuthorPlaceholder()
    ensures IsPlaceholder("%author%")
    ensures "%author%" != ArticleTitleToken && "%author%" != ArticleUrlToken && "%author%" != ArticleContentToken
  {
    assert "%author%"[1..7] == "author";
  }

  /** `%siteName%` is a placeholder other than the article's three. */
  lemma SiteNamePlaceholder()
    ensures IsPlaceholder("%siteName%")
    ensures "%siteName%" != ArticleTitleToken && "%siteName%" != ArticleUrlToken
    ensures "%siteName%" != ArticleContentToken
  {
    assert "%siteName%"[1..9] == "siteName";
  }

  /** `%articleReadingTime%` is a placeholder other than the article's three. */
  lemma ReadingTimePlaceholder()
    ensures IsPlaceholder("%articleReadingTime%")
    ensures "%articleReadingTime%" != ArticleTitleToken && "%articleReadingTime%" != ArticleUrlToken
    ensures "%articleReadingTime%" != ArticleContentToken
  {
    assert "%articleReadingTime%"[1..19] == "articleReadingTime";
  }

  /** The placeholders the settings screen offers beyond the three the
      parser fills are left literal. */
  lemma RenderParsableKeepsUnknownPlaceholders(title: string, url: string, content: string)
    ensures RenderParsable("%date%", title, url, content) == "%date%"
    ensures RenderParsable("%author%", title, url, content) == "%author%"
    ensures RenderParsable("%siteName%", title, url, content) == "%siteName%"
    ensures RenderParsable("%articleReadingTime%", title, url, content) == "%articleReadingTime%"
  {
    DatePlaceholder();
    RenderParsableKeepsOtherPlaceholder("%date%", title, url, content);
    AuthorPlaceholder();
    RenderParsableKeepsOtherPlaceholder("%author%", title, url, content);
    SiteNamePlaceholder();
    RenderParsableKeepsOtherPlaceholder("%siteName%", title, url, content);
    ReadingTimePlaceholder();
    RenderParsableKeepsOtherPlaceholder("%articleReadingTime%", title, url, content);
  }

  /** The nonreadable template's `%date%` placeholder is left literal. */
  lemma RenderNotParsableKeepsDate(url: string)
    ensures RenderNotParsable("%date%", url) == "%date%"
  {
    ArticlePlaceholders();
    DatePlaceholder();
    PlaceholderNotInPlaceholder("%date%", ArticleUrlToken);
    ReplaceFirstAbsent("%date%", ArticleUrlToken, url);
  }

  /** A placeholder replaced by itself, alone. */
  lemma ReplaceWholeToken(pat: string, rep: string)
    requires |pat| > 0
    ensures ReplaceAll(pat, pat, rep) == rep
  {
    assert pat[|pat|..] == [];
    assert rep + [] == rep;
  }

  /** Substitution order: the title is substituted first, so a URL
      placeholder inside the title becomes the URL, and a content placeholder
      inside the URL becomes the content. */
  lemma RenderParsableTitleBeforeUrl(url: string, content: string)
    ensures RenderParsable(ArticleTitleToken, ArticleUrlToken, url, content)
         == ReplaceAll(url, ArticleContentToken, content)
  {
    ReplaceWholeToken(ArticleTitleToken, ArticleUrlToken);
    ReplaceWholeToken(ArticleUrlToken, url);
  }

  /** The converted content is substituted last and therefore appears
      verbatim, even when it holds placeholders itself. */
  lemma RenderParsableContentVerbatim(title: string, url: string, content: string)
    ensures RenderParsable(ArticleContentToken, title, url, content) == content
  {
    ArticlePlaceholders();
    ReplaceAllAbsent(ArticleContentToken, ArticleTitleToken, title);
    ReplaceAllAbsent(ArticleContentToken, ArticleUrlToken, url);
    ReplaceWholeToken(ArticleContentToken, content);
  }

  /** Replacing in two copies of `x` around a separator the pattern does
      not use is replacing in each copy. */
  lemma ReplaceAllAroundSeparator(x: string, sep: string, pat: string, rep: string)
    requires |pat| > 0 && sep != [] && sep[0] !in pat && sep[|sep| - 1] !in pat && pat[0] !in sep
    ensures ReplaceAll(x + sep + x, pat, rep) == ReplaceAll(x, pat, rep) + sep + ReplaceAll(x, pat, rep)
  {
    assert x + sep + x == x + (sep + x);
    ReplaceAllJoin(x, sep + x, pat, rep);
    ReplaceAllJoin(sep, x, pat, rep);
    AbsentWithoutHead(sep, pat);
    ReplaceAllAbsent(sep, pat, rep);
  }

  /** Readable rendering is global: a template holding the title placeholder
      twice gets the title, with its own URL and content placeholders
      substituted, twice. */
  lemma RenderParsableIsGlobal(title: string, url: string, content: string)
    ensures var once := RenderParsable(ArticleTitleToken, title, url, content);
      RenderParsable(ArticleTitleToken + " | " + ArticleTitleToken, title, url, content) == once + " | " + once
  {
    var sep := " | ";
    ReplaceAllAroundSeparator(ArticleTitleToken, sep, ArticleTitleToken, title);
    ReplaceWholeToken(ArticleTitleToken, title);
    ReplaceAllAroundSeparator(title, sep, ArticleUrlToken, url);
    var t2 := ReplaceAll(title, ArticleUrlToken, url);
    ReplaceAllAroundSeparator(t2, sep, ArticleContentToken, content);
  }

  /** Nonreadable rendering replaces only the first URL placeholder. */
  lemma RenderNotParsableFirstOnly(template: string, url: string, i: nat)
    requires FirstAt(template, ArticleUrlToken, i)
    ensures RenderNotParsable(template, url)
         == template[..i] + url + template[i + |ArticleUrlToken|..]
  {
    ReplaceFirstAt(template, ArticleUrlToken, url, i);
  }
}
