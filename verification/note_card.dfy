/**
 * What one card of the note list shows: a content preview cut at sixty
 * characters, the title with a fallback, and whether the note has a
 * summary. The formatted date is not part of this model.
 */
module NoteCard {
  import opened NoteTypes

  /** The number of content characters a preview keeps. */
  const PreviewLength: nat := 60
  const Ellipsis: string := "..."
  const EmptyPreview: string := "Empty note"

  /**
   * Long content is cut to its first sixty characters followed by an
   * ellipsis; shorter non-empty content is shown whole; empty content shows
   * a placeholder.
   */
  function ContentPreview(content: string): (p: string)
    ensures |p| <= PreviewLength + |Ellipsis|
    ensures |content| > PreviewLength ==>
      |p| == PreviewLength + |Ellipsis| && p[..PreviewLength] == content[..PreviewLength]
      && p[PreviewLength..] == Ellipsis
    ensures 0 < |content| <= PreviewLength ==> p == content
    ensures content == "" ==> p == EmptyPreview
  {
    if |content| > PreviewLength then
      content[..PreviewLength] + Ellipsis
    else if content != "" then
      content
    else
      EmptyPreview
  }

  /** Every preview begins with the content, as far as the content fits. */
  lemma PreviewStartsWithContent(content: string)
    ensures var k := if |content| < PreviewLength then |content| else PreviewLength;
      k <= |ContentPreview(content)| && ContentPreview(content)[..k] == content[..k]
  {
  }

  /** The heading of the card: the title, or the default title when it is empty. */
  function DisplayTitle(title: string): (t: string)
    ensures t != ""
    ensures title != "" ==> t == title
    ensures title == "" ==> t == UntitledTitle
  {
    if title != "" then title else UntitledTitle
  }

  /** `note.summary && note.summary.length > 0`: an empty summary counts as none. */
  function HasSummary(note: Note): (b: bool)
    ensures b <==> note.summary.Some? && |note.summary.value| > 0
  {
    match note.summary
    case None => false
    case Some(s) => |s| > 0
  }
}
