/** The forum's SQLite database seen as one abstract value: tables become
    maps keyed by row id, the two reaction tables are `ReactionTable`s, and
    the notifications table is a sequence in insertion order. The
    notification statements of internal/repository/post_reaction_repository.go
    are modelled here; SQL text, joins and ordering are not. */
module ForumStore {
  import opened Wrappers
  import opened Entities
  import ReactionTable

  datatype Forum = Forum(
    users: map<int, User>,
    posts: map<int, Post>,
    comments: map<int, Comment>,
    categories: seq<Category>,
    postReactions: ReactionTable.Table,
    commentReactions: ReactionTable.Table,
    notifications: seq<Notification>,
    moderationRequests: map<int, string>)

  /** The WHERE clause shared by `RemoveNotification` and `UpdateNotification`. */
  predicate Matches(n: Notification, owner: int, postId: int, trigger: int, action: string) {
    n.owner == owner && n.postId == postId && n.trigger == trigger && n.action == action
  }

  /** `AddNotification`: inserts one row, stamped with the current time. */
  function AddNotification(ns: seq<Notification>, owner: int, postId: int, trigger: int,
                           action: string, commentId: Option<int>, now: int): (r: seq<Notification>)
    ensures |r| == |ns| + 1 && r[..|ns|] == ns
    ensures multiset(r) == multiset(ns) + multiset{Notification(owner, postId, commentId, action, trigger, now)}
  {
    var r := ns + [Notification(owner, postId, commentId, action, trigger, now)];
    assert r[..|ns|] == ns;
    r
  }

  /** `RemoveNotification`: deletes every row matching (owner, post, trigger
      user, action) and no other. */
  function RemoveNotification(ns: seq<Notification>, owner: int, postId: int, trigger: int,
                              action: string): (r: seq<Notification>)
    ensures forall x :: x in r <==> x in ns && !Matches(x, owner, postId, trigger, action)
    ensures forall x :: !Matches(x, owner, postId, trigger, action) ==> multiset(r)[x] == multiset(ns)[x]
  {
    if ns == [] then []
    else
      var rest := RemoveNotification(ns[1..], owner, postId, trigger, action);
      assert ns == [ns[0]] + ns[1..];
      if Matches(ns[0], owner, postId, trigger, action) then rest else [ns[0]] + rest
  }

  /** `UpdateNotification`, by its evident intent: rows matching the old action
      are rewritten to the new action with a fresh timestamp. (The statement in
      the repository has a malformed WHERE clause; the use case relies on the
      rewrite.) */
  function UpdateNotification(ns: seq<Notification>, owner: int, postId: int, trigger: int,
                              oldAction: string, newAction: string, now: int): (r: seq<Notification>)
    ensures |r| == |ns|
    ensures forall i :: 0 <= i < |ns| ==>
              r[i] == if Matches(ns[i], owner, postId, trigger, oldAction)
                      then ns[i].(action := newAction, created := now) else ns[i]
  {
    if ns == [] then []
    else
      var n := ns[0];
      var m := if Matches(n, owner, postId, trigger, oldAction) then n.(action := newAction, created := now) else n;
      [m] + UpdateNotification(ns[1..], owner, postId, trigger, oldAction, newAction, now)
  }

  /** SQLite's answer to the repository's `UpdateNotification` statement:
      its WHERE clause goes on after the last condition with
      ", comment_id = NULL", which the parser refuses. */
  const UpdateSyntaxError: string := "near \",\": syntax error"

  /** `UpdateNotification` as written: the statement is refused before any
      row is read, so every call fails and no row changes. */
  function UpdateNotificationAsWritten(ns: seq<Notification>, owner: int, postId: int, trigger: int,
                                       oldAction: string, newAction: string, now: int): (r: Result<seq<Notification>, Error>)
    ensures r.Failure? && r.error == ErrDatabase(UpdateSyntaxError)
  {
    Failure(ErrDatabase(UpdateSyntaxError))
  }

  /** `UpdateNotificationTime`: re-stamps the rows of one comment; nothing but
      their timestamps changes. */
  function UpdateNotificationTime(ns: seq<Notification>, commentId: int, now: int): (r: seq<Notification>)
    ensures |r| == |ns|
    ensures forall i :: 0 <= i < |ns| ==> r[i].(created := ns[i].created) == ns[i]
    ensures forall i :: 0 <= i < |ns| ==>
              r[i].created == if ns[i].commentId == Some(commentId) then now else ns[i].created
  {
    if ns == [] then []
    else
      var n := ns[0];
      [if n.commentId == Some(commentId) then n.(created := now) else n]
        + UpdateNotificationTime(ns[1..], commentId, now)
  }

  /** Adding a notification and removing by the same key leaves none of that key. */
  lemma AddThenRemoveNotification(ns: seq<Notification>, owner: int, postId: int, trigger: int,
                                  action: string, commentId: Option<int>, now: int)
    ensures var r := RemoveNotification(AddNotification(ns, owner, postId, trigger, action, commentId, now),
                                        owner, postId, trigger, action);
            r == RemoveNotification(ns, owner, postId, trigger, action)
  {
    var added := AddNotification(ns, owner, postId, trigger, action, commentId, now);
    var x := Notification(owner, postId, commentId, action, trigger, now);
    assert added == ns + [x];
    RemoveAppend(ns, [x], owner, postId, trigger, action);
  }

  lemma {:induction false} RemoveAppend(a: seq<Notification>, b: seq<Notification>, owner: int, postId: int,
                                        trigger: int, action: string)
    ensures RemoveNotification(a + b, owner, postId, trigger, action) ==
            RemoveNotification(a, owner, postId, trigger, action) + RemoveNotification(b, owner, postId, trigger, action)
  {
    if a == [] {
      assert a + b == b;
    } else {
      assert (a + b)[1..] == a[1..] + b;
      RemoveAppend(a[1..], b, owner, postId, trigger, action);
    }
  }
}
