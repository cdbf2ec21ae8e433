/** The piece of Notion's rich-text and title arrays that the script reads. */
module RichText {
  import opened Wrappers

  /** One element of a Notion rich-text or title array; `content` is its `text.content`, if any. */
  datatype TextRun = TextRun(content: Option<string>)
}
