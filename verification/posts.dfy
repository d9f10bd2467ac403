/**
 * The post aggregate: a post owns an ordered list of comments and offers
 * operations to add, find, edit and remove them. The aggregate invariant is
 * stated and kept along these operations only.
 */
module Posts {
  import opened Wrappers
  import opened Comments

  datatype Post = Post(id: PostId, title: string, content: string, comments: seq<Comment>)

  /** Some comment in the list carries the id. */
  predicate HasComment(cs: seq<Comment>, id: CommentId)
  {
    exists i :: 0 <= i < |cs| && cs[i].id == id
  }

  /** Position `i` holds the first comment, in list order, that carries the id. */
  predicate IsFirstMatch(cs: seq<Comment>, id: CommentId, i: int)
  {
    && 0 <= i < |cs|
    && cs[i].id == id
    && forall j :: 0 <= j < i ==> cs[j].id != id
  }

  /** No two positions of the list carry the same comment id. */
  predicate UniqueIds(cs: seq<Comment>)
  {
    forall i, j :: 0 <= i < |cs| && 0 <= j < |cs| && i != j ==> cs[i].id != cs[j].id
  }

  /** Every comment of the list refers back to the given post. */
  predicate BelongTo(cs: seq<Comment>, post: PostId)
  {
    forall i :: 0 <= i < |cs| ==> cs[i].post == post
  }

  /** The aggregate invariant: comment ids are unique and every comment belongs to this post. */
  predicate WellFormed(p: Post)
  {
    UniqueIds(p.comments) && BelongTo(p.comments, p.id)
  }

  /** `new Post(title, content)`: a post starts with no comments. */
  function NewPost(id: PostId, title: string, content: string): (p: Post)
    ensures p.id == id && p.title == title && p.content == content
    ensures p.comments == []
    ensures WellFormed(p)
  {
    Post(id, title, content, [])
  }

  /** The linear scan behind `findCommentById`: the position of the first match, if any. */
  function FirstIndex(cs: seq<Comment>, id: CommentId): (r: Option<nat>)
    ensures r.Some? ==> IsFirstMatch(cs, id, r.value)
    ensures r.None? <==> !HasComment(cs, id)
  {
    if |cs| == 0 then None
    else if cs[0].id == id then Some(0)
    else
      match FirstIndex(cs[1..], id)
      case None =>
        assert forall i :: 1 <= i < |cs| ==> cs[i] == cs[1..][i - 1];
        None
      case Some(k) =>
        assert forall j :: 1 <= j < k + 1 ==> cs[j] == cs[1..][j - 1];
        Some(k + 1)
  }

  /** The comments a `filter(c -> c.getId().equals(id))` keeps, in list order. */
  function Matching(cs: seq<Comment>, id: CommentId): (r: seq<Comment>)
    ensures |r| <= |cs|
    ensures forall c :: c in r ==> c in cs && c.id == id
    ensures forall c :: c in cs && c.id == id ==> c in r
  {
    if |cs| == 0 then []
    else
      assert cs == [cs[0]] + cs[1..];
      (if cs[0].id == id then [cs[0]] else []) + Matching(cs[1..], id)
  }

  /** The filter keeps each comment with the id exactly as often as it occurs, and no other. */
  lemma {:induction false} MatchingCounts(cs: seq<Comment>, id: CommentId, c: Comment)
    ensures multiset(Matching(cs, id))[c] == if c.id == id then multiset(cs)[c] else 0
  {
    if |cs| > 0 {
      assert cs == [cs[0]] + cs[1..];
      MatchingCounts(cs[1..], id, c);
    }
  }

  /** The filter works piecewise, so the kept comments stay in list order. */
  lemma {:induction false} MatchingAppend(a: seq<Comment>, b: seq<Comment>, id: CommentId)
    ensures Matching(a + b, id) == Matching(a, id) + Matching(b, id)
  {
    if |a| > 0 {
      assert (a + b)[1..] == a[1..] + b;
      MatchingAppend(a[1..], b, id);
    } else {
      assert a + b == b;
    }
  }

  /** There is at most one first match. */
  lemma FirstMatchUnique(cs: seq<Comment>, id: CommentId, i: int, k: int)
    requires IsFirstMatch(cs, id, i) && IsFirstMatch(cs, id, k)
    ensures i == k
  {
  }

  /** `update(title, content)`: both fields are overwritten, the comment list is kept. */
  function Update(p: Post, title: string, content: string): (r: Post)
    ensures r.title == title && r.content == content
    ensures r.id == p.id && r.comments == p.comments
  {
    p.(title := title, content := content)
  }

  /** `addComment(content)`: appends a new authorless comment bound to this post and returns it. */
  function AddComment(p: Post, content: string, newId: CommentId): (r: (Post, Comment))
    requires !HasComment(p.comments, newId)
    ensures r.0.comments == p.comments + [r.1]
    ensures r.1.id == newId && r.1.content == content && r.1.post == p.id && r.1.author == None
    ensures r.0.id == p.id && r.0.title == p.title && r.0.content == p.content
  {
    var c := NewComment(newId, None, content, p.id);
    (p.(comments := p.comments + [c]), c)
  }

  /** `findCommentById(id)`: the first comment in list order with the id, or nothing. */
  function FindCommentById(p: Post, id: CommentId): (r: Option<Comment>)
    ensures r.None? <==> !HasComment(p.comments, id)
    ensures r.Some? ==> exists i :: IsFirstMatch(p.comments, id, i) && p.comments[i] == r.value
  {
    match FirstIndex(p.comments, id)
    case None => None
    case Some(i) => Some(p.comments[i])
  }

  /**
   * `updateComment(id, content)`: the first comment with the id gets the new
   * text in place and is returned. A missing id is an unrecovered fault in the
   * entity (an empty Optional is unwrapped), hence the precondition.
   */
  function UpdateComment(p: Post, id: CommentId, content: string): (r: (Post, Comment))
    requires HasComment(p.comments, id)
    ensures r.0.id == p.id && r.0.title == p.title && r.0.content == p.content
    ensures |r.0.comments| == |p.comments|
    ensures forall j :: 0 <= j < |p.comments| ==> r.0.comments[j].id == p.comments[j].id
    ensures exists i :: (&& IsFirstMatch(p.comments, id, i)
                         && r.0.comments == p.comments[i := r.1]
                         && r.1.content == content && r.1.id == id
                         && r.1.author == p.comments[i].author && r.1.post == p.comments[i].post)
  {
    var i := FirstIndex(p.comments, id).value;
    var c := Comments.Update(p.comments[i], content);
    (p.(comments := p.comments[i := c]), c)
  }

  /**
   * `deleteComment(id)`: removes the first comment with the id, keeping the
   * order of the rest. A missing id is an unrecovered fault, hence the precondition.
   */
  function DeleteComment(p: Post, id: CommentId): (r: Post)
    requires HasComment(p.comments, id)
    ensures r.id == p.id && r.title == p.title && r.content == p.content
    ensures |r.comments| == |p.comments| - 1
    ensures exists i :: IsFirstMatch(p.comments, id, i) && r.comments == p.comments[..i] + p.comments[i + 1..]
  {
    var i := FirstIndex(p.comments, id).value;
    p.(comments := p.comments[..i] + p.comments[i + 1..])
  }

  /** A first match found any way is what `findCommentById` returns. */
  lemma FindAt(p: Post, id: CommentId, i: int)
    requires IsFirstMatch(p.comments, id, i)
    ensures FindCommentById(p, id) == Some(p.comments[i])
  {
    var k := FirstIndex(p.comments, id).value;
    FirstMatchUnique(p.comments, id, i, k);
  }

  /** The scan agrees with the stream pipeline it models: filter by id, then take the first. */
  lemma {:induction false} FirstIndexIsFilterHead(cs: seq<Comment>, id: CommentId)
    ensures FirstIndex(cs, id).None? <==> Matching(cs, id) == []
    ensures FirstIndex(cs, id).Some? ==> cs[FirstIndex(cs, id).value] == Matching(cs, id)[0]
  {
    if |cs| > 0 && cs[0].id != id {
      FirstIndexIsFilterHead(cs[1..], id);
    }
  }

  /** `findCommentById` is `filter(...).findFirst()`. */
  lemma FindIsFilterFindFirst(p: Post, id: CommentId)
    ensures var m := Matching(p.comments, id);
      FindCommentById(p, id) == if m == [] then None else Some(m[0])
  {
    FirstIndexIsFilterHead(p.comments, id);
  }

  /** Editing the post's own fields keeps the aggregate invariant and every lookup. */
  lemma UpdateKeepsComments(p: Post, title: string, content: string, id: CommentId)
    ensures WellFormed(Update(p, title, content)) <==> WellFormed(p)
    ensures FindCommentById(Update(p, title, content), id) == FindCommentById(p, id)
  {
  }

  /** Writing the old title and content back restores the post. */
  lemma UpdateRestores(p: Post, title: string, content: string)
    ensures Update(Update(p, title, content), p.title, p.content) == p
  {
  }

  /** After `addComment` the new comment is found by its id, and every other lookup is as before. */
  lemma AddCommentThenFind(p: Post, content: string, newId: CommentId, other: CommentId)
    requires !HasComment(p.comments, newId)
    ensures var (q, c) := AddComment(p, content, newId);
      FindCommentById(q, newId) == Some(c)
    ensures other != newId ==>
      FindCommentById(AddComment(p, content, newId).0, other) == FindCommentById(p, other)
  {
    var (q, c) := AddComment(p, content, newId);
    assert IsFirstMatch(q.comments, newId, |p.comments|);
    FindAt(q, newId, |p.comments|);
    if other != newId {
      match FirstIndex(p.comments, other)
      case None =>
        assert !HasComment(q.comments, other) by {
          forall i | 0 <= i < |q.comments|
            ensures q.comments[i].id != other
          {
            if i < |p.comments| {
              assert q.comments[i] == p.comments[i];
            }
          }
        }
      case Some(k) =>
        assert forall j :: 0 <= j <= k ==> q.comments[j] == p.comments[j];
        assert IsFirstMatch(q.comments, other, k);
        FindAt(q, other, k);
        FindAt(p, other, k);
    }
  }

  /** `addComment` with an unused id keeps the aggregate invariant. */
  lemma AddCommentPreservesWellFormed(p: Post, content: string, newId: CommentId)
    requires WellFormed(p)
    requires !HasComment(p.comments, newId)
    ensures WellFormed(AddComment(p, content, newId).0)
  {
    var (q, c) := AddComment(p, content, newId);
    forall i, j | 0 <= i < |q.comments| && 0 <= j < |q.comments| && i != j
      ensures q.comments[i].id != q.comments[j].id
    {
      if i < |p.comments| && j < |p.comments| {
        assert q.comments[i] == p.comments[i] && q.comments[j] == p.comments[j];
      } else if i < |p.comments| {
        assert q.comments[i] == p.comments[i];
      } else {
        assert q.comments[j] == p.comments[j];
      }
    }
  }

  /** After `updateComment` the same lookup yields the updated comment, and other lookups are as before. */
  lemma UpdateCommentThenFind(p: Post, id: CommentId, content: string, other: CommentId)
    requires HasComment(p.comments, id)
    ensures var (q, c) := UpdateComment(p, id, content);
      FindCommentById(q, id) == Some(c) && c.content == content
    ensures other != id ==>
      FindCommentById(UpdateComment(p, id, content).0, other) == FindCommentById(p, other)
  {
    var (q, c) := UpdateComment(p, id, content);
    var i :| IsFirstMatch(p.comments, id, i) && q.comments == p.comments[i := c] && c.id == id;
    assert forall j :: 0 <= j < |p.comments| ==> q.comments[j].id == p.comments[j].id;
    assert IsFirstMatch(q.comments, id, i);
    FindAt(q, id, i);
    if other != id {
      match FirstIndex(p.comments, other)
      case None =>
        assert !HasComment(q.comments, other);
      case Some(k) =>
        assert IsFirstMatch(q.comments, other, k);
        assert q.comments[k] == p.comments[k];
        FindAt(q, other, k);
        FindAt(p, other, k);
    }
  }

  /** `updateComment` keeps the aggregate invariant: ids and back-references are untouched. */
  lemma UpdateCommentPreservesWellFormed(p: Post, id: CommentId, content: string)
    requires WellFormed(p)
    requires HasComment(p.comments, id)
    ensures WellFormed(UpdateComment(p, id, content).0)
  {
    var (q, c) := UpdateComment(p, id, content);
    var i :| IsFirstMatch(p.comments, id, i) && q.comments == p.comments[i := c]
      && c.id == id && c.post == p.comments[i].post;
    assert forall j :: 0 <= j < |p.comments| ==>
      q.comments[j].id == p.comments[j].id && q.comments[j].post == p.comments[j].post;
  }

  /** Updating a comment and then writing its old text back restores the post. */
  lemma UpdateCommentRestores(p: Post, id: CommentId, content: string)
    requires HasComment(p.comments, id)
    ensures var q := UpdateComment(p, id, content).0;
      UpdateComment(q, id, FindCommentById(p, id).value.content).0 == p
  {
    var (q, c) := UpdateComment(p, id, content);
    var i :| IsFirstMatch(p.comments, id, i) && q.comments == p.comments[i := c]
      && c.id == id && c.author == p.comments[i].author && c.post == p.comments[i].post;
    FindAt(p, id, i);
    var before := p.comments[i].content;
    assert forall j :: 0 <= j < |p.comments| ==> q.comments[j].id == p.comments[j].id;
    assert HasComment(q.comments, id);
    var (q2, c2) := UpdateComment(q, id, before);
    var i2 :| IsFirstMatch(q.comments, id, i2) && q2.comments == q.comments[i2 := c2]
      && c2.content == before && c2.id == id
      && c2.author == q.comments[i2].author && c2.post == q.comments[i2].post;
    assert IsFirstMatch(q.comments, id, i);
    FirstMatchUnique(q.comments, id, i, i2);
    assert c2 == p.comments[i];
    assert q2.comments == p.comments;
  }

  /** With unique ids, a deleted comment can no longer be found. */
  lemma DeleteCommentThenFind(p: Post, id: CommentId)
    requires HasComment(p.comments, id)
    requires UniqueIds(p.comments)
    ensures FindCommentById(DeleteComment(p, id), id) == None
  {
    var q := DeleteComment(p, id);
    var i :| IsFirstMatch(p.comments, id, i) && q.comments == p.comments[..i] + p.comments[i + 1..];
    forall j | 0 <= j < |q.comments|
      ensures q.comments[j].id != id
    {
      if j < i {
        assert q.comments[j] == p.comments[j];
      } else {
        assert q.comments[j] == p.comments[j + 1];
      }
    }
  }

  /** Deleting one id leaves every lookup of a different id as it was. */
  lemma DeleteCommentKeepsOthers(p: Post, id: CommentId, other: CommentId)
    requires HasComment(p.comments, id)
    requires other != id
    ensures FindCommentById(DeleteComment(p, id), other) == FindCommentById(p, other)
  {
    var q := DeleteComment(p, id);
    var cs := p.comments;
    var i :| IsFirstMatch(cs, id, i) && q.comments == cs[..i] + cs[i + 1..];
    assert forall j :: 0 <= j < i ==> q.comments[j] == cs[j];
    assert forall j :: i <= j < |q.comments| ==> q.comments[j] == cs[j + 1];
    match FirstIndex(cs, other)
    case None =>
      assert !HasComment(q.comments, other);
    case Some(k) =>
      FindAt(p, other, k);
      if k < i {
        assert IsFirstMatch(q.comments, other, k);
        FindAt(q, other, k);
      } else {
        assert IsFirstMatch(q.comments, other, k - 1);
        FindAt(q, other, k - 1);
      }
  }

  /** `deleteComment` keeps the aggregate invariant. */
  lemma DeleteCommentPreservesWellFormed(p: Post, id: CommentId)
    requires WellFormed(p)
    requires HasComment(p.comments, id)
    ensures WellFormed(DeleteComment(p, id))
  {
    var q := DeleteComment(p, id);
    var cs := p.comments;
    var i :| IsFirstMatch(cs, id, i) && q.comments == cs[..i] + cs[i + 1..];
    assert forall j :: 0 <= j < |q.comments| ==> q.comments[j] == cs[if j < i then j else j + 1];
  }

  /** Deleting the comment just added gives back the original post. */
  lemma DeleteUndoesAdd(p: Post, content: string, newId: CommentId)
    requires !HasComment(p.comments, newId)
    ensures HasComment(AddComment(p, content, newId).0.comments, newId)
    ensures DeleteComment(AddComment(p, content, newId).0, newId) == p
  {
    var (q, c) := AddComment(p, content, newId);
    var n := |p.comments|;
    assert q.comments[n] == c;
    var r := DeleteComment(q, newId);
    var i :| IsFirstMatch(q.comments, newId, i) && r.comments == q.comments[..i] + q.comments[i + 1..];
    assert IsFirstMatch(q.comments, newId, n);
    FirstMatchUnique(q.comments, newId, i, n);
    assert q.comments[..n] == p.comments;
    assert r.comments == p.comments;
  }
}
