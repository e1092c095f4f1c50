/** The reaction use case of internal/service/reaction_usecases.go: one
    request either posts a comment, toggles the user's reaction to a post,
    or toggles the user's reaction to a comment, keeping the notification
    rows of the post's owner in step. */
module ReactionUseCases {
  import opened Wrappers
  import opened Entities
  import opened Validator
  import opened ForumStore
  import RT = ReactionTable
  import PostUseCases

  /** `reactionForm`: which of the three fields is non-empty picks the action. */
  datatype ReactionForm = ReactionForm(comment: string, postIsLike: string, commentIsLike: string,
                                       commentID: int, v: Validator)

  /** `ReportsDTO`; the report record itself is left abstract. */
  datatype ReportsDTO<T> = ReportsDTO(reports: seq<T>, hasNextPage: bool, currentPage: int, paginationURL: string)

  const CommentKey: string := "comment"
  const CommentAction: string := "comment"

  /** Which branch a request takes, in the order the use case tests them. */
  datatype Branch = PostComment | PostReaction | CommentReaction | Nothing

  function BranchOf(form: ReactionForm): (b: Branch)
    ensures b == PostComment <==> form.comment != ""
    ensures b == PostReaction <==> form.comment == "" && form.postIsLike != ""
    ensures b == CommentReaction <==> form.comment == "" && form.postIsLike == "" && form.commentIsLike != ""
    ensures b == Nothing <==> form.comment == "" && form.postIsLike == "" && form.commentIsLike == ""
  {
    if form.comment != "" then PostComment
    else if form.postIsLike != "" then PostReaction
    else if form.commentIsLike != "" then CommentReaction
    else Nothing
  }

  /** What the request leaves behind: the store, the form (its validator may
      have gained errors) and the error returned, if any. */
  datatype Outcome = Outcome(forum: Forum, form: ReactionForm, err: Option<Error>)

  /** The post branch: the new reaction state and notification rows. */
  function TogglePostReaction(f: Forum, userID: int, postID: int, owner: int, like: bool, now: int): (r: Forum)
    ensures r == f.(postReactions := RT.Toggle(f.postReactions, userID, postID, like), notifications := r.notifications)
    ensures RT.Lookup(r.postReactions, userID, postID) ==
              if RT.Lookup(f.postReactions, userID, postID) == Some(like) then None else Some(like)
    ensures forall k :: k != (userID, postID) ==> (k in r.postReactions <==> k in f.postReactions)
    ensures forall k :: k != (userID, postID) && k in f.postReactions ==> r.postReactions[k] == f.postReactions[k]
    ensures RT.Lookup(f.postReactions, userID, postID) == Some(like) ==>
              r.notifications == RemoveNotification(f.notifications, owner, postID, userID, ActionFor(like))
    ensures RT.Lookup(f.postReactions, userID, postID) == None ==>
              r.notifications == AddNotification(f.notifications, owner, postID, userID, ActionFor(like), None, now)
    ensures RT.Lookup(f.postReactions, userID, postID) == Some(!like) ==>
              r.notifications == UpdateNotification(f.notifications, owner, postID, userID, ActionFor(!like),
                                                    ActionFor(like), now)
  {
    var action := ActionFor(like);
    var current := RT.Lookup(f.postReactions, userID, postID);
    var ns :=
      if current == Some(like) then RemoveNotification(f.notifications, owner, postID, userID, action)
      else if current.None? then AddNotification(f.notifications, owner, postID, userID, action, None, now)
      else UpdateNotification(f.notifications, owner, postID, userID, ActionFor(current.value), action, now);
    f.(postReactions := RT.Toggle(f.postReactions, userID, postID, like), notifications := ns)
  }

  /** The two checks of the comment branch on the "comment" field: blank
      first, then the text pattern; the first failing one gives the message. */
  function CheckComment(v: Validator, comment: string, textRX: string -> bool): (r: Validator)
    ensures Valid(r) <==> Valid(v) && NotBlank(comment) && textRX(comment)
    ensures r.nonFieldErrors == v.nonFieldErrors
    ensures r.fieldErrors.Keys <= v.fieldErrors.Keys + {CommentKey}
    ensures forall k :: k in v.fieldErrors ==> k in r.fieldErrors && r.fieldErrors[k] == v.fieldErrors[k]
    ensures CommentKey !in v.fieldErrors ==>
              (CommentKey in r.fieldErrors <==> !NotBlank(comment) || !textRX(comment))
    ensures CommentKey !in v.fieldErrors && !NotBlank(comment) ==>
              r.fieldErrors[CommentKey] == PostUseCases.BlankMessage
    ensures CommentKey !in v.fieldErrors && NotBlank(comment) && !textRX(comment) ==>
              r.fieldErrors[CommentKey] == PostUseCases.LettersMessage
  {
    var v1 := CheckField(v, NotBlank(comment), CommentKey, PostUseCases.BlankMessage);
    CheckField(v1, textRX(comment), CommentKey, PostUseCases.LettersMessage)
  }

  /** The post branch as written: switching from one reaction to the other
      calls the repository's `UpdateNotification`, whose error ends the
      request before `AddReaction`, so nothing changes. The other two
      transitions are those of `TogglePostReaction`. */
  function TogglePostReactionAsWritten(f: Forum, userID: int, postID: int, owner: int, like: bool, now: int)
    : (r: (Forum, Option<Error>))
    ensures RT.Lookup(f.postReactions, userID, postID) != Some(!like) ==>
              r == (TogglePostReaction(f, userID, postID, owner, like, now), None)
    ensures RT.Lookup(f.postReactions, userID, postID) == Some(!like) ==> r.1.Some? && r.0 == f
  {
    if RT.Lookup(f.postReactions, userID, postID) == Some(!like) then
      match UpdateNotificationAsWritten(f.notifications, owner, postID, userID, ActionFor(!like), ActionFor(like), now)
      case Failure(e) => (f, Some(e))
      case Success(ns) => (f.(postReactions := RT.Upsert(f.postReactions, userID, postID, like), notifications := ns), None)
    else (TogglePostReaction(f, userID, postID, owner, like, now), None)
  }

  /** As written, a user who liked a post can never switch to a dislike (nor
      back): the request fails with the syntax error and the old reaction
      and its notification stay. */
  lemma SwitchReactionAsWritten(f: Forum, userID: int, postID: int, owner: int, like: bool, now: int)
    requires RT.Lookup(f.postReactions, userID, postID) == Some(!like)
    ensures var (g, err) := TogglePostReactionAsWritten(f, userID, postID, owner, like, now);
            && err == Some(ErrDatabase(UpdateSyntaxError))
            && RT.Lookup(g.postReactions, userID, postID) == Some(!like)
            && g.notifications == f.notifications
  {
  }

  /** With the intended rewrite the switch succeeds: the reaction becomes the
      new one, and each of the owner's rows for the old action now carries
      the new action and the current time, in place. */
  lemma SwitchReactionCorrected(f: Forum, userID: int, postID: int, owner: int, like: bool, now: int)
    requires RT.Lookup(f.postReactions, userID, postID) == Some(!like)
    ensures var g := TogglePostReaction(f, userID, postID, owner, like, now);
            && RT.Lookup(g.postReactions, userID, postID) == Some(like)
            && |g.notifications| == |f.notifications|
            && (forall i :: 0 <= i < |f.notifications| && Matches(f.notifications[i], owner, postID, userID, ActionFor(!like)) ==>
                  g.notifications[i] == f.notifications[i].(action := ActionFor(like), created := now))
            && (forall i :: 0 <= i < |f.notifications| && !Matches(f.notifications[i], owner, postID, userID, ActionFor(!like)) ==>
                  g.notifications[i] == f.notifications[i])
  {
  }

  /** `UpdatePostReaction`. `textRX` stands for the `TextRX` pattern,
      `newCommentID` for the row id the database gives a new comment and
      `now` for the current time stamped on notifications. */
  function UpdatePostReaction(f: Forum, userID: int, postID: int, form: ReactionForm, textRX: string -> bool,
                              newCommentID: int, now: int): (r: Outcome)
    requires newCommentID !in f.comments
    // Unknown user or post: nothing changes.
    ensures userID !in f.users || postID !in f.posts ==> r == Outcome(f, form, Some(ErrNoRecord))
    // Only the comment branch touches the validator.
    ensures BranchOf(form) != PostComment ==> r.form == form
    // Comment branch.
    ensures userID in f.users && postID in f.posts && BranchOf(form) == PostComment ==>
              && r.form == form.(v := CheckComment(form.v, form.comment, textRX))
              && (r.err.None? <==> NotBlank(form.comment) && textRX(form.comment) && Valid(form.v))
              && (r.err.Some? ==> r.err == Some(ErrInvalidData) && r.forum == f)
              && (r.err.None? ==>
                    r.forum == f.(comments := f.comments[newCommentID := Comment(postID, userID, form.comment)],
                                  notifications := AddNotification(f.notifications, f.posts[postID].userId, postID,
                                                                   userID, CommentAction, Some(newCommentID), now)))
    // Post reaction branch: "true" is a like, any other value a dislike.
    ensures userID in f.users && postID in f.posts && BranchOf(form) == PostReaction ==>
              r.err.None? &&
              r.forum == TogglePostReaction(f, userID, postID, f.posts[postID].userId, form.postIsLike == "true", now)
    // Comment reaction branch.
    ensures userID in f.users && postID in f.posts && BranchOf(form) == CommentReaction ==>
              && (form.commentID !in f.comments ==> r == Outcome(f, form, Some(ErrNoRecord)))
              && (form.commentID in f.comments ==>
                    && r.err.None?
                    && r.forum == f.(commentReactions := RT.Toggle(f.commentReactions, userID, form.commentID,
                                                                   form.commentIsLike == "true")))
    ensures userID in f.users && postID in f.posts && BranchOf(form) == Nothing ==> r == Outcome(f, form, None)
  {
    if userID !in f.users || postID !in f.posts then Outcome(f, form, Some(ErrNoRecord))
    else
      var owner := f.posts[postID].userId;
      if form.comment != "" then
        var v := CheckComment(form.v, form.comment, textRX);
        var form' := form.(v := v);
        if !Valid(v) then Outcome(f, form', Some(ErrInvalidData))
        else
          var comments := f.comments[newCommentID := Comment(postID, userID, form.comment)];
          var ns := AddNotification(f.notifications, owner, postID, userID, CommentAction, Some(newCommentID), now);
          Outcome(f.(comments := comments, notifications := ns), form', None)
      else if form.postIsLike != "" then
        Outcome(TogglePostReaction(f, userID, postID, owner, form.postIsLike == "true", now), form, None)
      else if form.commentIsLike != "" then
        var like := form.commentIsLike == "true";
        if form.commentID !in f.comments then Outcome(f, form, Some(ErrNoRecord))
        else
          Outcome(f.(commentReactions := RT.Toggle(f.commentReactions, userID, form.commentID, like)), form, None)
      else Outcome(f, form, None)
  }

  /** Notifications are stored under the right action: every row of `owner`
      for this post and trigger user is absent after an unlike. */
  lemma ToggleOffLeavesNoNotification(f: Forum, userID: int, postID: int, owner: int, like: bool, now: int)
    requires RT.Lookup(f.postReactions, userID, postID) == Some(like)
    ensures forall n :: n in TogglePostReaction(f, userID, postID, owner, like, now).notifications ==>
              !Matches(n, owner, postID, userID, ActionFor(like))
  {
  }

  /** Removing by a key no row matches changes nothing. */
  lemma {:induction false} RemoveNoMatch(ns: seq<Notification>, owner: int, postId: int, trigger: int, action: string)
    requires forall i :: 0 <= i < |ns| ==> !Matches(ns[i], owner, postId, trigger, action)
    ensures RemoveNotification(ns, owner, postId, trigger, action) == ns
  {
    if ns != [] {
      RemoveNoMatch(ns[1..], owner, postId, trigger, action);
    }
  }

  /** Liking (or disliking) twice is a no-op on the reaction table and the
      notifications, when no stale notification for that action existed. */
  lemma ReactTwiceRestores(f: Forum, userID: int, postID: int, owner: int, like: bool, t1: int, t2: int)
    requires (userID, postID) !in f.postReactions
    requires forall i :: 0 <= i < |f.notifications| ==> !Matches(f.notifications[i], owner, postID, userID, ActionFor(like))
    ensures TogglePostReaction(TogglePostReaction(f, userID, postID, owner, like, t1), userID, postID, owner, like, t2) == f
  {
    var f1 := TogglePostReaction(f, userID, postID, owner, like, t1);
    AddThenRemoveNotification(f.notifications, owner, postID, userID, ActionFor(like), None, t1);
    RemoveNoMatch(f.notifications, owner, postID, userID, ActionFor(like));
    RT.AddThenRemoveRestores(f.postReactions, userID, postID, like);
  }

  /** Sending the same comment reaction twice leaves every reaction and
      everything else as it was, unless the user held the opposite
      reaction on that comment, whose row is then gone. */
  lemma ReactToCommentTwice(f: Forum, userID: int, postID: int, form: ReactionForm, textRX: string -> bool,
                            newCommentID: int, now: int)
    requires newCommentID !in f.comments
    requires userID in f.users && postID in f.posts && BranchOf(form) == CommentReaction
    requires form.commentID in f.comments
    ensures var once := UpdatePostReaction(f, userID, postID, form, textRX, newCommentID, now);
            var twice := UpdatePostReaction(once.forum, userID, postID, form, textRX, newCommentID, now);
            && twice.err.None? && twice.form == form
            && twice.forum ==
                 if RT.Lookup(f.commentReactions, userID, form.commentID) == Some(!(form.commentIsLike == "true"))
                 then f.(commentReactions := RT.Remove(f.commentReactions, userID, form.commentID))
                 else f
  {
    RT.ToggleTwice(f.commentReactions, userID, form.commentID, form.commentIsLike == "true");
  }

  /** A reaction request on a post the user has not reacted to leaves
      exactly one new notification row, for the post's owner. */
  lemma FirstReactionNotifies(f: Forum, userID: int, postID: int, form: ReactionForm, textRX: string -> bool,
                              newCommentID: int, now: int)
    requires newCommentID !in f.comments
    requires userID in f.users && postID in f.posts && BranchOf(form) == PostReaction
    requires (userID, postID) !in f.postReactions
    ensures var r := UpdatePostReaction(f, userID, postID, form, textRX, newCommentID, now);
            multiset(r.forum.notifications) == multiset(f.notifications) +
              multiset{Notification(f.posts[postID].userId, postID, None, ActionFor(form.postIsLike == "true"), userID, now)}
  {
  }

  /** `GetAllPaginatedPostReportsDTO`: the same fetch-one-more trim. */
  function GetAllPaginatedPostReportsDTO<T>(rows: seq<T>, page: int, pageSize: nat, paginationURL: string): (dto: ReportsDTO<T>)
    ensures dto.hasNextPage <==> |rows| > pageSize
    ensures dto.reports == rows[..if |rows| > pageSize then pageSize else |rows|]
    ensures dto.currentPage == page && dto.paginationURL == paginationURL
  {
    var (reports, hasNextPage) := PostUseCases.Paginate(rows, pageSize);
    ReportsDTO(reports, hasNextPage, page, paginationURL)
  }
}
