/** The records of internal/entities the use cases pass around, and the
    sentinel errors they return. Database-only columns (creation strings,
    joined user names) are left out. */
module Entities {
  import opened Wrappers

  /** The sentinel errors of internal/entities/errors.go, plus
      `ErrFormAlreadySubmitted` which the user use cases return. */
  datatype Error =
    | ErrNoRecord
    | ErrInvalidCredentials
    | ErrInvalidData
    | ErrFormAlreadySubmitted
    | ErrUnsupportedFileType
    | ErrFileSizeTooLarge
    | ErrImageRead
    | ErrRemoveFile(path: string)  // the error `os.Remove` returns for an image file
    | ErrDatabase(message: string)  // an error the SQLite driver returns

  const RoleUser: string := "user"
  const RoleModerator: string := "moderator"
  const RoleAdmin: string := "admin"

  datatype Category = Category(id: int, name: string)

  /** A user; `password` stands for the stored bcrypt hash, compared as an opaque value. */
  datatype User = User(username: string, role: string, password: string)

  datatype Post = Post(title: string, content: string, userId: int, categories: seq<int>, images: seq<string>)

  datatype Comment = Comment(postId: int, userId: int, content: string)

  /** A notification row: `owner` is told that `trigger` did `action`
      ("like", "dislike" or "comment") on post `postId` at time `created`. */
  datatype Notification = Notification(
    owner: int,
    postId: int,
    commentId: Option<int>,
    action: string,
    trigger: int,
    created: int)

  /** The action word a post reaction is recorded under. */
  function ActionFor(isLike: bool): (a: string)
    ensures a == "like" || a == "dislike"
    ensures isLike <==> a == "like"
  {
    if isLike then "like" else "dislike"
  }
}
