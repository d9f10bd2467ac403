/** The comment entity: the element type of a post's comment list. */
module Comments {
  import opened Wrappers
  import Members

  /** Identifier the persistence layer assigns to a comment. */
  type CommentId = nat

  /** Identifier of a post; a comment refers back to its post through it. */
  type PostId = nat

  /**
   * A comment: its id, an optional author, its text, and the post it belongs to
   * (the back-reference is held as the owning post's id).
   */
  datatype Comment = Comment(id: CommentId, author: Option<Members.MemberId>, content: string, post: PostId)

  /**
   * The three-field constructor (author, content, post). The id is not one of
   * its arguments in the entity, where the persistence layer fills it in; here
   * it is supplied by the caller.
   */
  function NewComment(id: CommentId, author: Option<Members.MemberId>, content: string, post: PostId): (c: Comment)
    ensures c.author == author && c.content == content && c.post == post && c.id == id
  {
    Comment(id, author, content, post)
  }

  /** `update(content)`: overwrites the text and nothing else. */
  function Update(c: Comment, content: string): (r: Comment)
    ensures r.content == content
    ensures r.id == c.id && r.author == c.author && r.post == c.post
  {
    c.(content := content)
  }

  /** Updating with the same text twice is the same as updating once. */
  lemma UpdateIdempotent(c: Comment, content: string)
    ensures Update(Update(c, content), content) == Update(c, content)
  {
  }

  /** Only the last of two updates is visible. */
  lemma UpdateLastWins(c: Comment, first: string, second: string)
    ensures Update(Update(c, first), second) == Update(c, second)
  {
  }

  /** Writing the old text back restores the comment exactly. */
  lemma UpdateRestores(c: Comment, content: string)
    ensures Update(Update(c, content), c.content) == c
  {
  }

  /** Two comments that differ only in their text become equal once given the same text. */
  lemma UpdateDeterminedByIdentity(a: Comment, b: Comment, content: string)
    requires a.id == b.id && a.author == b.author && a.post == b.post
    ensures Update(a, content) == Update(b, content)
  {
  }
}
