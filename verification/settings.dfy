/**
 The plugin's configuration record and its default values. The record is
 immutable: every rendering operation receives it as an argument.
 */
module Settings {

  /** One field per configuration entry, under the entry's own name. */
  datatype ReadItLaterSettings = ReadItLaterSettings(
    inboxDir: string,
    assetsDir: string,
    openNewNote: bool,
    youtubeNoteTitle: string,
    youtubeNote: string,
    vimeoNoteTitle: string,
    vimeoNote: string,
    bilibiliNoteTitle: string,
    bilibiliNote: string,
    twitterNoteTitle: string,
    twitterNote: string,
    parseableArticleNoteTitle: string,
    parsableArticleNote: string,
    notParseableArticleNoteTitle: string,
    notParsableArticleNote: string,
    textSnippetNoteTitle: string,
    textSnippetNote: string,
    mastodonNoteTitle: string,
    mastodonNote: string,
    downloadImages: bool,
    downloadImagesInArticleDir: bool,
    dateTitleFmt: string,
    dateContentFmt: string,
    downloadMastodonMediaAttachments: bool,
    downloadMastodonMediaAttachmentsInDir: bool,
    saveMastodonReplies: bool,
    mastodonReply: string,
    stackExchangeNoteTitle: string,
    stackExchangeNote: string,
    stackExchangeAnswer: string,
    downloadStackExchangeAssets: bool,
    downloadStackExchangeAssetsInDir: bool,
    youtubeApiKey: string
  )

  /** The default value of each text entry. Each value is a constant of its
      own, so that a proof about one default does not have to look at the
      text of all the others. */
  const DefaultInboxDir: string := "ReadItLater Inbox"
  const DefaultAssetsDir: string := "ReadItLater Inbox/assets"
  const DefaultYoutubeNoteTitle: string := "Youtube - %title%"
  const DefaultYoutubeNote: string := "[[ReadItLater]] [[Youtube]]\n\n# [%videoTitle%](%videoURL%)\n\n%videoPlayer%"
  const DefaultVimeoNoteTitle: string := "Vimeo - %title%"
  const DefaultVimeoNote: string := "[[ReadItLater]] [[Vimeo]]\n\n# [%videoTitle%](%videoURL%)\n\n%videoPlayer%"
  const DefaultBilibiliNoteTitle: string := "Bilibili - %title%"
  const DefaultBilibiliNote: string := "[[ReadItLater]] [[Bilibili]]\n\n# [%videoTitle%](%videoURL%)\n\n%videoPlayer%"
  const DefaultTwitterNoteTitle: string := "Tweet from %tweetAuthorName% (%date%)"
  const DefaultTwitterNote: string := "[[ReadItLater]] [[Tweet]]\n\n# [%tweetAuthorName%](%tweetURL%)\n\n%tweetContent%"
  const DefaultParseableArticleNoteTitle: string := "%title%"
  const DefaultParsableArticleNote: string := "[[ReadItLater]] [[Article]]\n\n# [%articleTitle%](%articleURL%)\n\n%articleContent%"
  const DefaultNotParseableArticleNoteTitle: string := "Article %date%"
  const DefaultNotParsableArticleNote: string := "[[ReadItLater]] [[Article]]\n\n[%articleURL%](%articleURL%)"
  const DefaultTextSnippetNoteTitle: string := "Note %date%"
  const DefaultTextSnippetNote: string := "[[ReadItLater]] [[Textsnippet]]\n\n%content%"
  const DefaultMastodonNoteTitle: string := "Toot from %tootAuthorName% (%date%)"
  const DefaultMastodonNote: string := "[[ReadItLater]] [[Toot]]\n\n# [%tootAuthorName%](%tootURL%)\n\n> %tootContent%"
  const DefaultDateTitleFmt: string := "YYYY-MM-DD HH-mm-ss"
  const DefaultDateContentFmt: string := "YYYY-MM-DD"
  const DefaultMastodonReply: string := "[%tootAuthorName%](%tootURL%)\n\n> %tootContent%"
  const DefaultStackExchangeNoteTitle: string := "%title%"
  const DefaultStackExchangeNote: string := "[[ReadItLater]] [[StackExchange]]\n\n# [%questionTitle%](%questionURL%)\n\nAuthor: [%authorName%](%authorProfileURL%)\n\n%questionContent%\n\n***\n\n%topAnswer%\n\n%answers%"
  const DefaultStackExchangeAnswer: string := "Answered by: [%authorName%](%authorProfileURL%)\n\n%answerContent%"
  const DefaultYoutubeApiKey: string := ""

  /** The configuration a fresh installation starts with. */
  function DefaultSettings(): (d: ReadItLaterSettings)
    // assets live in a sub-directory of the inbox
    ensures d.assetsDir == d.inboxDir + "/assets"
    ensures d.inboxDir == "ReadItLater Inbox"
    // every "download" toggle is on, every "own folder" toggle is off
    ensures d.downloadImages && !d.downloadImagesInArticleDir
    ensures d.downloadMastodonMediaAttachments && !d.downloadMastodonMediaAttachmentsInDir
    ensures d.downloadStackExchangeAssets && !d.downloadStackExchangeAssetsInDir
    ensures !d.openNewNote && !d.saveMastodonReplies && d.youtubeApiKey == ""
    // the title templates of the two article notes
    ensures d.parseableArticleNoteTitle == "%title%"
    ensures d.notParseableArticleNoteTitle == "Article %date%"
  {
    ReadItLaterSettings(
      inboxDir := DefaultInboxDir,
      assetsDir := DefaultAssetsDir,
      openNewNote := false,
      youtubeNoteTitle := DefaultYoutubeNoteTitle,
      youtubeNote := DefaultYoutubeNote,
      vimeoNoteTitle := DefaultVimeoNoteTitle,
      vimeoNote := DefaultVimeoNote,
      bilibiliNoteTitle := DefaultBilibiliNoteTitle,
      bilibiliNote := DefaultBilibiliNote,
      twitterNoteTitle := DefaultTwitterNoteTitle,
      twitterNote := DefaultTwitterNote,
      parseableArticleNoteTitle := DefaultParseableArticleNoteTitle,
      parsableArticleNote := DefaultParsableArticleNote,
      notParseableArticleNoteTitle := DefaultNotParseableArticleNoteTitle,
      notParsableArticleNote := DefaultNotParsableArticleNote,
      textSnippetNoteTitle := DefaultTextSnippetNoteTitle,
      textSnippetNote := DefaultTextSnippetNote,
      mastodonNoteTitle := DefaultMastodonNoteTitle,
      mastodonNote := DefaultMastodonNote,
      downloadImages := true,
      downloadImagesInArticleDir := false,
      dateTitleFmt := DefaultDateTitleFmt,
      dateContentFmt := DefaultDateContentFmt,
      downloadMastodonMediaAttachments := true,
      downloadMastodonMediaAttachmentsInDir := false,
      saveMastodonReplies := false,
      mastodonReply := DefaultMastodonReply,
      stackExchangeNoteTitle := DefaultStackExchangeNoteTitle,
      stackExchangeNote := DefaultStackExchangeNote,
      stackExchangeAnswer := DefaultStackExchangeAnswer,
      downloadStackExchangeAssets := true,
      downloadStackExchangeAssetsInDir := false,
      youtubeApiKey := DefaultYoutubeApiKey
    )
  }
}
