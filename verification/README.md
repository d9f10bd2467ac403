# Post/comment aggregate and member join/login, modelled in Dafny

This project models two sequential pieces of a small blog application's domain logic:

- **The post aggregate.** A post has a title, a content string and an ordered list of comments, and offers operations that add, find by id, edit and remove them. The aggregate invariant (unique comment ids, every comment pointing back to the post) is proved to hold along these operations only. `Post` is an immutable datatype whose comments are a `seq<Comment>`, and every entity method is a pure function that returns the new post, plus the comment where the entity returns one. `Optional.get()` on a missing comment id is an unrecovered fault in the entity, so `updateComment` and `deleteComment` take "some comment has the id" as a precondition. A comment's back-reference to its post is stored as the post's id.
- **The member join/login decisions of the v1 member API controller.** These run over a member store, a `map<string, Member>` keyed by username. Each handler returns the store after the call together with either a result envelope `RsData(resultCode, msg, data)` or the typed `ServiceError(resultCode, msg)` that the controller throws. The result codes are 201-1, 409-1, 200-1, 401-1 and 401-2, and the Korean message texts match the controller's.

Modules:

- `wrappers.dfy`: `Option` and `Result`.
- `members.dfy`: `Member`, the store, the envelope types, one-hole message templates, and `Join` and `Login`.
- `comments.dfy`: the `Comment` entity, its three-field constructor and `update`.
- `posts.dfy`: the `Post` aggregate, its invariant (unique comment ids, every comment refers back to the post) and the lemmas relating the operations.

Parameters stand in for values from collaborators that are not part of this model:

- Comment and member ids come from the persistence layer, so they are passed in.
- Where a member's API key comes from is not shown: `Member.java` declares no key, and only the login handler reads one. The key is a parameter of `Join`.
- `AddComment` requires its fresh id to be absent from the list. This is the persistence layer's guarantee.

Where the sources disagree:

- `Post.java` line 37 calls a two-argument `new Comment(content, this)`. `Comment.java` declares only the three-argument `(author, content, post)` constructor and the all-fields constructor. The model follows the evident intent: the new comment has no author (`author == None`).
- `member.getApiKey()` refers to a field that `Member.java` does not declare. The model gives `Member` an `apiKey` string field.

## Model

| member | source | states |
|---|---|---|
| Comments.NewComment | src/main/java/com/rest1/domain/post/comment/entity/Comment.java:27-31 | the constructor stores exactly the given author, content and post back-reference |
| Comments.Update | src/main/java/com/rest1/domain/post/comment/entity/Comment.java:33-35 | update sets the content to the given text and leaves id, author and post back-reference unchanged |
| Comments.UpdateIdempotent | src/main/java/com/rest1/domain/post/comment/entity/Comment.java:33-35 | updating twice with the same text equals updating once |
| Comments.UpdateLastWins | src/main/java/com/rest1/domain/post/comment/entity/Comment.java:33-35 | of two successive updates only the second is visible |
| Comments.UpdateRestores | src/main/java/com/rest1/domain/post/comment/entity/Comment.java:33-35 | writing the previous text back restores the comment exactly (update is invertible) |
| Comments.UpdateDeterminedByIdentity | src/main/java/com/rest1/domain/post/comment/entity/Comment.java:33-35 | two comments with equal id, author and post become equal once given the same text, so update depends on nothing else |
| Posts.NewPost | src/main/java/com/rest1/domain/post/post/entity/Post.java:24-29 | a new post has the given title and content, no comments, and satisfies the aggregate invariant |
| Posts.Update | src/main/java/com/rest1/domain/post/post/entity/Post.java:31-34 | update sets title and content and leaves the id and comment list unchanged |
| Posts.UpdateKeepsComments | src/main/java/com/rest1/domain/post/post/entity/Post.java:31-34 | update preserves the aggregate invariant (both directions) and every findCommentById result |
| Posts.UpdateRestores | src/main/java/com/rest1/domain/post/post/entity/Post.java:31-34 | writing the old title and content back restores the post |
| Posts.AddComment | src/main/java/com/rest1/domain/post/post/entity/Post.java:36-41 | the list becomes the old list plus the new comment at the end. The new comment has the given content and id, no author, and points back to this post. Title and content are unchanged |
| Posts.AddCommentThenFind | src/main/java/com/rest1/domain/post/post/entity/Post.java:36-58 | after addComment the new comment is found by its id, and lookups of every other id are unchanged |
| Posts.AddCommentPreservesWellFormed | src/main/java/com/rest1/domain/post/post/entity/Post.java:36-41 | with a fresh id, addComment keeps ids unique and every comment pointing back to the post |
| Posts.FirstIndex | src/main/java/com/rest1/domain/post/post/entity/Post.java:54-58 | the linear scan returns the position of the first comment in list order with the id, and returns nothing exactly when no comment has it |
| Posts.Matching | src/main/java/com/rest1/domain/post/post/entity/Post.java:55-56 | the filter keeps every comment of the list that carries the id and nothing else |
| Posts.MatchingCounts | src/main/java/com/rest1/domain/post/post/entity/Post.java:55-56 | each comment with the id is kept exactly as often as it occurs in the list, and any other comment not at all |
| Posts.MatchingAppend | src/main/java/com/rest1/domain/post/post/entity/Post.java:55-56 | filtering a concatenation is the concatenation of the filtered parts, so kept comments stay in list order |
| Posts.FindCommentById | src/main/java/com/rest1/domain/post/post/entity/Post.java:54-58 | the result is empty exactly when no comment has the id. Otherwise it is the comment at the first matching position |
| Posts.FirstIndexIsFilterHead | src/main/java/com/rest1/domain/post/post/entity/Post.java:54-58 | the scan finds nothing exactly when the filter keeps nothing, and otherwise hits the filter's first element |
| Posts.FindIsFilterFindFirst | src/main/java/com/rest1/domain/post/post/entity/Post.java:54-58 | findCommentById equals filter-by-id followed by findFirst |
| Posts.UpdateComment | src/main/java/com/rest1/domain/post/post/entity/Post.java:48-52 | with the id present, the first matching comment gets the new content in place and is returned. Length, order, ids and all other comments are unchanged, and so are title and content |
| Posts.UpdateCommentThenFind | src/main/java/com/rest1/domain/post/post/entity/Post.java:48-58 | after updateComment the same id finds the returned, updated comment, and lookups of other ids are unchanged |
| Posts.UpdateCommentPreservesWellFormed | src/main/java/com/rest1/domain/post/post/entity/Post.java:48-52 | updateComment keeps the aggregate invariant |
| Posts.UpdateCommentRestores | src/main/java/com/rest1/domain/post/post/entity/Post.java:48-52 | updating a comment and then writing its old content back restores the post |
| Posts.DeleteComment | src/main/java/com/rest1/domain/post/post/entity/Post.java:43-46 | with the id present, exactly the first matching comment is removed. The others keep their relative order, the length drops by one, and title and content are unchanged |
| Posts.DeleteCommentThenFind | src/main/java/com/rest1/domain/post/post/entity/Post.java:43-58 | if comment ids are unique, the deleted id is no longer found |
| Posts.DeleteCommentKeepsOthers | src/main/java/com/rest1/domain/post/post/entity/Post.java:43-58 | deleting one id leaves the lookup of every other id unchanged |
| Posts.DeleteCommentPreservesWellFormed | src/main/java/com/rest1/domain/post/post/entity/Post.java:43-46 | deleteComment keeps the aggregate invariant |
| Posts.DeleteUndoesAdd | src/main/java/com/rest1/domain/post/post/entity/Post.java:36-46 | deleting the comment just added gives back the original post |
| Members.UnformatFormat | src/main/java/com/rest1/domain/member/member/controller/ApiV1MemberController.java:57 | the argument of a formatted message can be recovered from it |
| Members.FormatUnformat | src/main/java/com/rest1/domain/member/member/controller/ApiV1MemberController.java:57 | a message that fits a template is that template formatted with what it holds |
| Members.FormatInjective | src/main/java/com/rest1/domain/member/member/controller/ApiV1MemberController.java:57 | different nicknames give different welcome messages |
| Members.Join | src/main/java/com/rest1/domain/member/member/controller/ApiV1MemberController.java:44-62 | a taken username fails with 409-1 and leaves the store unchanged. Otherwise exactly one member is added under that username with the given password and nickname, all other entries stay the same, and the reply is 201-1 with a message carrying the nickname and the new member as data |
| Members.Login | src/main/java/com/rest1/domain/member/member/controller/ApiV1MemberController.java:81-102 | the store never changes. 401-1 exactly when the username is unknown. 401-2 exactly when the username is known but the password differs. Success exactly when both match, with 200-1, that member and its API key |
| Members.JoinPreservesWellFormed | src/main/java/com/rest1/domain/member/member/controller/ApiV1MemberController.java:48-61 | with an unused member id, join keeps every entry under its own username and member ids distinct |
| Members.JoinThenLogin | src/main/java/com/rest1/domain/member/member/controller/ApiV1MemberController.java:44-102 | right after a successful join, logging in with the same credentials succeeds and returns the new member and its API key |
| Members.JoinThenWrongPassword | src/main/java/com/rest1/domain/member/member/controller/ApiV1MemberController.java:81-92 | right after a join, any other password is refused with 401-2 |
| Members.JoinTwiceRefused | src/main/java/com/rest1/domain/member/member/controller/ApiV1MemberController.java:48-51 | a second join with the same username is refused with 409-1 and changes nothing |

## Left out

- Id assignment, timestamps, JPA cascade and orphan removal, and lazy loading belong to the persistence layer. Ids are parameters, and timestamps are not modelled.
- A comment that has not been persisted yet has a null id, and comparing against it in the scan would throw. The model assumes every comment already carries an id.
- Concurrent modification of one post's comment list is unguarded in the source. The model is sequential.
- Bean validation (`@NotBlank`, `@Size(min = 2, max = 30)`) runs in the framework before the handler, and the global exception handler formats its messages. The model accepts any strings.
- Mapping a result code to an HTTP status is done by the envelope class, which is not part of this model.
- `MemberDto` is not part of this model. The envelope carries the `Member` itself.
- `MemberService.join` is not part of this model. The model assumes it stores `Member(username, password, nickname)` with an id from the persistence layer and an API key from code that is not shown.
- The form-flow post and comment controllers, the post API tests and `CommentDto` are routing, view names or field-copy projections over a service that is not part of this model.
- The list of comments is not encapsulated in the source: the generated getter hands out the live list, and `Comment.update` and the all-fields constructor are public. Code outside the post can therefore add, remove or edit comments directly. The model covers only changes made through the post's operations, and the invariant is proved for those alone.
- Comments are values in the model, not shared objects. In the source, `updateComment` edits the comment object in place, so a reference handed out earlier (for example the one `addComment` returned) sees the new text. In the model an earlier returned comment keeps its old text; aliasing is not modelled.
