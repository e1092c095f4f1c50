/** Two guards of internal/service/user_usecases.go: the once-only
    moderation request, and the existence check in front of a password
    change (with the hash comparison of the repository behind it). */
module UserUseCases {
  import opened Wrappers
  import opened Entities
  import opened Validator
  import opened ForumStore

  /** `ModerationRequestForm`. */
  datatype ModerationForm = ModerationForm(reason: string, v: Validator)

  const UserKey: string := "user"
  const ReasonKey: string := "reason"
  const AlreadySubmitted: string := "The form has already been submitted"

  datatype Outcome = Outcome(forum: Forum, form: ModerationForm, err: Option<Error>)

  /** `CreateModerationRequest`: a user may file one request; the reason must
      be non-blank and accepted by `textRX` (the `TextRX` pattern). */
  function CreateModerationRequest(f: Forum, userID: int, form: ModerationForm, textRX: string -> bool): (r: Outcome)
    ensures r.err.Some? ==> r.forum == f
    ensures userID in f.moderationRequests ==>
              r.err == Some(ErrFormAlreadySubmitted) && r.form.v == AddFieldError(form.v, UserKey, AlreadySubmitted)
    ensures userID !in f.moderationRequests && !(NotBlank(form.reason) && textRX(form.reason) && Valid(form.v)) ==>
              r.err == Some(ErrInvalidData)
    ensures r.err.None? <==>
              userID !in f.moderationRequests && NotBlank(form.reason) && textRX(form.reason) && Valid(form.v)
    ensures r.err.None? ==> r.forum == f.(moderationRequests := f.moderationRequests[userID := form.reason])
    ensures r.form.reason == form.reason
  {
    if userID in f.moderationRequests then
      Outcome(f, form.(v := CheckField(form.v, false, UserKey, AlreadySubmitted)), Some(ErrFormAlreadySubmitted))
    else
      var v := CheckField(form.v, NotBlank(form.reason), ReasonKey, "This field cannot be blank");
      var v := CheckField(v, textRX(form.reason), ReasonKey, "This field must contain only english or russian letters");
      if !Valid(v) then Outcome(f, form.(v := v), Some(ErrInvalidData))
      else Outcome(f.(moderationRequests := f.moderationRequests[userID := form.reason]), form.(v := v), None)
  }

  /** A second request never succeeds, whatever its reason: the duplicate
      check comes before the reason is looked at. */
  lemma SecondRequestRefused(f: Forum, userID: int, first: ModerationForm, second: ModerationForm,
                             textRX: string -> bool)
    requires CreateModerationRequest(f, userID, first, textRX).err.None?
    ensures var f1 := CreateModerationRequest(f, userID, first, textRX).forum;
            CreateModerationRequest(f1, userID, second, textRX) ==
              Outcome(f1, second.(v := AddFieldError(second.v, UserKey, AlreadySubmitted)), Some(ErrFormAlreadySubmitted))
  {
  }

  /** `accountPasswordUpdateForm`, the fields the use case reads. */
  datatype PasswordForm = PasswordForm(currentPassword: string, newPassword: string)

  /** `UpdatePassword` with the repository step it delegates to. `matches`
      stands for the bcrypt comparison of a stored hash with a password and
      `newHash` for the hash bcrypt generates for the new password. */
  function UpdatePassword(f: Forum, userID: int, form: PasswordForm, matches: (string, string) -> bool,
                          newHash: string): (r: (Forum, Option<Error>))
    ensures userID !in f.users ==> r == (f, Some(ErrNoRecord))
    ensures userID in f.users && !matches(f.users[userID].password, form.currentPassword) ==>
              r == (f, Some(ErrInvalidCredentials))
    ensures r.1.None? <==> userID in f.users && matches(f.users[userID].password, form.currentPassword)
    ensures r.1.None? ==> r.0 == f.(users := f.users[userID := f.users[userID].(password := newHash)])
  {
    if userID !in f.users then (f, Some(ErrNoRecord))
    else if !matches(f.users[userID].password, form.currentPassword) then (f, Some(ErrInvalidCredentials))
    else (f.(users := f.users[userID := f.users[userID].(password := newHash)]), None)
  }

  /** A password change never touches another user's record. */
  lemma UpdatePasswordOnlyOwn(f: Forum, userID: int, form: PasswordForm, matches: (string, string) -> bool,
                              newHash: string)
    ensures var r := UpdatePassword(f, userID, form, matches, newHash).0;
            r.users.Keys == f.users.Keys &&
            forall u :: u in f.users && u != userID ==> r.users[u] == f.users[u]
  {
  }
}
