# Forum core in Dafny

A model of the core of a Go web forum: users write posts in categories, comment on them, and like or dislike posts and comments. The post's owner is notified of each reaction or comment. Sessions are kept in an in-memory provider, and the middleware gates requests on CSRF tokens, authentication, roles and a per-visitor rate. The model covers:

- **Form validation** (`Validator`): the field-error map where the first message wins, and the checks `NotBlank`, `NotHaveAnySpaces`, `MaxChars`, `MinChars`, `PermittedValue` and `ValidateID`. The standard-library string functions they rely on (`strings.TrimSpace`, `Fields`, `Join`, `strconv.Itoa`, `strconv.Atoi` with the int64 range) are in `Strings`.
- **Storage** (`ReactionTable`, `ForumStore`): the database as an immutable value. Tables are maps; the two reaction tables hold one row per (user, item); notifications are a sequence in insertion order. The reaction and notification statements of the repositories become functions on it.
- **Post use cases** (`PostUseCases`):
  - category validation;
  - the fetch-one-more pagination trim;
  - the filtered listing and its header;
  - post creation with its validation gate;
  - deletion of posts and comments by their owner.
- **Reaction and user use cases** (`ReactionUseCases`, `UserUseCases`):
  - comment / post reaction / comment reaction dispatch, with the notification bookkeeping;
  - the report pagination;
  - the once-only moderation request;
  - the password change.
- **Sessions** (`Memory`, `Sessions`):
  - the provider's recency list, sid index and user binding;
  - the store operations, which refresh the session on every access;
  - the manager's registry, session start and destroy;
  - token renewal after login.
- **Middleware** (`Middleware`): chain construction and nesting, `verifyCSRF`, `requireAuthentication`, `requireModeration`, the cmd/web `hasAccess`, and the rate limiter.
- **Template helpers** (`Templates`): `contains`, `join`, `add` and `sub` with 64-bit wrap-around, and `GetUserReaction`.
- **cmd/web handlers** (`WebHandlers`): the `postView` ID guard and `postCreate`'s validation and insert decision.
- **Environment loader** (`Env`): the `.env` loader.
- **Page script** (`NavScript`): the nav highlighting and comment-time rewrite of the page script.

Strings are sequences of runes, so a rune count is a length. Time is an integer count of seconds. Values the program gets from outside are parameters: the current time, generated IDs and tokens, the `TextRX` regular expression, the bcrypt comparison, the result of image checks, and the browser's date parsing and formatting.

Two calls in the code do not match the functions they call. The post reaction repository's `UpdateNotification` has a malformed `WHERE` clause, so as written the statement cannot run and a switched post reaction fails (see Findings below). The model keeps both: `ForumStore.UpdateNotificationAsWritten` returns the database error, and `ForumStore.UpdateNotification` rewrites the rows of the old action to the new one, which is what the use case relies on. The reaction use case calls `AddNotification` with four arguments, while the repository takes a fifth, the comment ID. The model records the new comment's ID on comment notifications and none on reaction notifications.

## Model

| member | source | states |
|---|---|---|
| Strings.TrimLeft | pkg/validator/validator.go:57-59 | the result is no longer than the input and does not start with white space |
| Strings.IsSpace | pkg/validator/validator.go:57-59 | `unicode.IsSpace`: in Latin-1 the white space is exactly tab, newline, vertical tab, form feed, carriage return, space, U+0085 and U+00A0; above Latin-1 only runes from U+1680 on qualify |
| Strings.TrimLeftSuffix | pkg/validator/validator.go:57-59 | what trimming drops on the left is a prefix made only of white space, and the rest is kept as is |
| Strings.TrimRight | pkg/validator/validator.go:57-59 | the result is no longer than the input and does not end with white space |
| Strings.TrimRightPrefix | pkg/validator/validator.go:57-59 | what trimming drops on the right is a suffix made only of white space |
| Strings.TrimSpace | pkg/validator/validator.go:57-59 | `strings.TrimSpace`: the result neither starts nor ends with white space |
| Strings.TrimSpaceSlice | pkg/utils/env.go:27-28 | the trimmed string is the slice of the input between a white-space prefix and a white-space suffix |
| Strings.TrimSpaceEmptyIff | pkg/validator/validator.go:57-59 | trimming leaves nothing exactly when the string is all white space |
| Strings.TrimSpaceIdempotent | pkg/utils/env.go:27-28 | trimming twice is trimming once |
| Strings.WordLength | pkg/validator/validator.go:61-63 | the length of the longest space-free prefix: that prefix holds no white space and is followed by white space or the end |
| Strings.Fields | pkg/validator/validator.go:61-63 | `strings.Fields` yields only non-empty, space-free words |
| Strings.FieldsConcat | pkg/validator/validator.go:61-63 | joining the fields with "" gives the string with all its white space removed |
| Strings.TrimLeftInvisible | pkg/validator/validator.go:61-63 | leading white space does not change the string once its white space is removed |
| Strings.JoinSnoc | pkg/validator/validator.go:61-63 | `strings.Join` adds one separator before each item after the first |
| Strings.Join | pkg/validator/validator.go:61-63 | `strings.Join`: nothing joins to ""; a join starts with its first item, followed by the separator when there is a second |
| Strings.JoinLength | internal/handler/templates.go:70-76 | a join is as long as its items plus one separator between each pair of neighbours; joining nothing gives "" |
| Strings.JoinEmptyCons | pkg/validator/validator.go:61-63 | with an empty separator, joining is concatenation |
| Strings.RemoveSpaces | pkg/validator/validator.go:61-63 | removing white space never lengthens a string |
| Strings.RemoveSpacesAppend | pkg/validator/validator.go:61-63 | removing white space distributes over concatenation |
| Strings.RemoveSpacesAll | pkg/validator/validator.go:61-63 | an all-space string vanishes, and a space-free one is unchanged |
| Strings.RemoveSpacesShorter | pkg/validator/validator.go:61-63 | a string holding any white space gets strictly shorter |
| Strings.NatToString | internal/handler/templates.go:70-76 | `strconv.Itoa` of a natural number writes canonical digits, with no leading zero |
| Strings.IntToString | internal/handler/templates.go:70-76 | a negative number is written as a minus sign followed by its magnitude |
| Strings.NatToStringValue | internal/handler/templates.go:70-76 | reading back the digits gives the number |
| Strings.DecimalRoundTrip | pkg/validator/validator.go:97-114 | writing out the value of canonical digits gives the same digits |
| Strings.CanonicalInjective | pkg/validator/validator.go:97-114 | two canonical digit strings have the same value exactly when they are equal |
| Strings.CanonicalLowerBound | pkg/validator/validator.go:97-114 | n canonical digits are worth at least 10^(n-1) |
| Strings.Atoi | cmd/web/handlers.go:32-33 | `strconv.Atoi` accepts only an optional sign followed by at least one digit, and nothing else; the value lies in int64, is negative only after a minus sign, and its magnitude is the value of the digits |
| Strings.AtoiDigits | cmd/web/handlers.go:32-33 | every digit string is read bare, after "+" and after "-": it gives its value (negated after "-") exactly when that fits in int64, down to the int64 minimum, and is an error otherwise |
| Strings.AtoiItoa | cmd/web/handlers.go:32-33 | `Atoi` reads back what `Itoa` writes, for every int64 |
| Validator.Valid | pkg/validator/validator.go:31-33 | a form is valid exactly when it has no field errors and no non-field errors |
| Validator.AddNonFieldError | pkg/validator/validator.go:35-37 | the message is appended after the earlier ones, field errors are unchanged, and the form is invalid |
| Validator.AddFieldError | pkg/validator/validator.go:39-49 | a key that already has a message keeps it; otherwise the key gets the message; other keys are unchanged |
| Validator.CheckField | pkg/validator/validator.go:51-55 | an error is recorded exactly when the check fails |
| Validator.FirstFieldErrorWins | pkg/validator/validator.go:46-48 | a second message for the same field changes nothing |
| Validator.FieldErrorsCommute | pkg/validator/validator.go:39-49 | errors on different fields can be added in either order |
| Validator.NotBlank | pkg/validator/validator.go:57-59 | holds exactly when some rune is not white space |
| Validator.NotHaveAnySpaces | pkg/validator/validator.go:61-63 | holds exactly when no rune is white space |
| Validator.RemoveSpacesIdentity | pkg/validator/validator.go:61-63 | removing white space leaves a string unchanged exactly when it has none |
| Validator.MaxChars | pkg/validator/validator.go:65-67 | counts runes, not the bytes Go's `len` would: every string of at most n UTF-8 bytes passes, and a passing string has at most 4n bytes; it holds exactly when the rune count is at most n |
| Validator.MinChars | pkg/validator/validator.go:78-80 | counts runes, not bytes: every string of at least 4n UTF-8 bytes passes, and a passing string has at least n bytes; it holds exactly when the rune count is at least n |
| Validator.MaxMinCharsExact | pkg/validator/validator.go:65-80 | both bounds hold at once exactly at the rune count, and at most n runes is the same as not at least n+1 |
| Validator.Utf8Width | pkg/validator/validator.go:65-67 | a rune takes one to four bytes, and exactly one for ASCII |
| Validator.Utf8Length | pkg/validator/validator.go:65-67 | the byte length lies between the rune count and four times it |
| Validator.AsciiCharsAreBytes | pkg/validator/validator.go:65-80 | for ASCII text the rune count and the byte count agree, so both checks then match the byte-counting reading |
| Validator.MaxCharsCountsRunes | pkg/validator/validator.go:65-67 | for every n, n Cyrillic runes take 2n bytes and still pass the n limit, where a byte count would refuse them |
| Validator.PermittedValue | pkg/validator/validator.go:69-76 | holds exactly when the value is among the permitted ones |
| Validator.ValidateID | pkg/validator/validator.go:87-115 | accepts exactly canonical digits other than "0" within int64, writing back to the input; the empty string gets its own error; on error the ID is 0 |
| Validator.CanonicalPositive | pkg/validator/validator.go:109-111 | canonical digits are worth at least 1 exactly when they are not "0" |
| Validator.ValidateIDAcceptsRendering | pkg/validator/validator.go:87-115 | every positive int64 written in decimal is accepted as itself |
| Validator.ValidateIDExamples | cmd/web/handlers_test.go:51-70 | "1" is accepted; "0", "-1", "+1", "01", "1.23", "foo" and a 20-digit number each get the error of the check that stops them |
| Validator.ValidateIDRejectsLong | pkg/validator/validator.go:109-111 | twenty digits or more overflow int64 and are refused as not positive |
| Entities.ActionFor | internal/service/reaction_usecases.go:92-98 | a like is stored as "like" and a dislike as "dislike" |
| ReactionTable.Upsert | internal/repository/post_reaction_repository.go:111-117 | the pair holds the new value, and every other row is unchanged |
| ReactionTable.Remove | internal/repository/post_reaction_repository.go:119-123 | the pair's row is gone, and every other row is unchanged |
| ReactionTable.Toggle | internal/service/reaction_usecases.go:156-172 | repeating the stored reaction removes the row, anything else makes the pair hold the new reaction; every other row is unchanged |
| ReactionTable.ToggleTwice | internal/service/reaction_usecases.go:161-172 | toggling the same reaction twice restores the table, except that an opposite reaction the user held is gone |
| ReactionTable.Lookup | internal/repository/post_reaction_repository.go:125-139 | no row reads as nil, without an error; otherwise the stored value |
| ReactionTable.ReactorsMembership | internal/repository/comment_reaction_repository.go:54-84 | a user counts as a liker (disliker) exactly when its row holds a like (dislike) |
| ReactionTable.ReactorsEmptyIff | internal/repository/comment_reaction_repository.go:54-84 | the set of users with a given reaction is empty exactly when no row on the item holds it |
| ReactionTable.CountLikes | internal/repository/comment_reaction_repository.go:54-68 | the like count is 0 exactly when no row on the item is a like |
| ReactionTable.CountDislikes | internal/repository/comment_reaction_repository.go:70-84 | the dislike count is 0 exactly when no row on the item is a dislike |
| ReactionTable.ReactionCounts | internal/repository/post_reaction_repository.go:141-148 | likes plus dislikes is the number of users who reacted |
| ReactionTable.CountsPartition | internal/repository/post_reaction_repository.go:141-148 | likers and dislikers are disjoint and together make up all reactors |
| ReactionTable.UpsertIdempotent | internal/repository/post_reaction_repository.go:111-117 | upserting the same reaction twice is the same as once |
| ReactionTable.UpsertLookup | internal/repository/post_reaction_repository.go:111-139 | after an upsert, the pair reads as the new value and every other pair as before |
| ReactionTable.RemoveLookup | internal/repository/post_reaction_repository.go:119-139 | after a removal, the pair reads as nil and every other pair as before; removing a missing row changes nothing |
| ReactionTable.AddThenRemoveRestores | internal/repository/comment_reaction_repository.go:21-37 | adding, then removing, a reaction on a pair that had none restores the table and both counts |
| ReactionTable.UpsertNewLikeCounts | internal/repository/comment_reaction_repository.go:21-68 | a first like adds exactly one to the likes and leaves the dislikes unchanged |
| ForumStore.AddNotification | internal/repository/post_reaction_repository.go:69-77 | exactly one row is appended, stamped with the current time, after the old rows |
| ForumStore.RemoveNotification | internal/repository/post_reaction_repository.go:79-87 | exactly the rows matching owner, post, trigger user and action are deleted; every other row keeps its multiplicity |
| ForumStore.UpdateNotification | internal/repository/post_reaction_repository.go:89-98 | each row matching the old action gets the new action and a new time; every other row is unchanged |
| ForumStore.UpdateNotificationAsWritten | internal/repository/post_reaction_repository.go:89-98 | as written: the statement always fails with SQLite's syntax error at the "," |
| ForumStore.UpdateNotificationTime | internal/repository/post_reaction_repository.go:100-109 | the rows of the comment get the new time; nothing else in any row changes |
| ForumStore.AddThenRemoveNotification | internal/repository/post_reaction_repository.go:69-87 | adding a row, then removing by its key, is the same as only removing |
| ForumStore.RemoveAppend | internal/repository/post_reaction_repository.go:79-87 | removing distributes over concatenation |
| PostUseCases.CategoryIds | internal/service/post_usecases.go:769-772 | the map of known IDs holds exactly the IDs of the stored categories |
| PostUseCases.KnownOnly | internal/service/post_usecases.go:774-780 | keeps exactly the selected IDs that are known, and adds nothing |
| PostUseCases.ScanCategories | internal/service/post_usecases.go:774-780 | the loop keeps the known IDs and records the "invalid" error exactly when some ID is unknown |
| PostUseCases.ValidateCategories | internal/service/post_usecases.go:764-788 | the selection becomes the known IDs when there are any. An empty selection gets "need". An unknown ID gets "invalid" (an earlier message stays). No known ID gets "need" |
| PostUseCases.ValidateCategoriesVerdict | internal/service/post_usecases.go:764-788 | a valid form stays valid exactly when the selection is non-empty and all known, and the selection is then unchanged |
| PostUseCases.ValidateCategoriesKeepsField | internal/service/post_usecases.go:764-788 | every field other than "categories" keeps its message |
| PostUseCases.KnownOnlyAllKnown | internal/service/post_usecases.go:774-780 | a fully known selection is kept as it is |
| PostUseCases.NoKnownCategoryRejected | internal/service/post_usecases.go:783-787 | a selection with no known ID is kept unchanged and the form is invalid |
| PostUseCases.Paginate | internal/service/post_usecases.go:386-391 | the flag says whether more than a page came back; the page is the first pageSize rows |
| PostUseCases.PaginateWindow | internal/service/post_usecases.go:379-391 | fetching one row more than a page at the page's offset, then trimming, gives exactly that page of the full result; the flag says whether any row lies beyond it |
| PostUseCases.GetAllPaginatedPostsDTO | internal/service/post_usecases.go:379-405 | the DTO holds the trimmed page, the next-page flag, the categories and the page number |
| PostUseCases.GetUserPostsDTO | internal/service/post_usecases.go:247-286 | an unknown user is ErrNoRecord. A user deleted in between is shown as "Deleted User" when they have posts, and is ErrNoRecord otherwise. Success carries the trimmed page |
| PostUseCases.NamesFor | internal/service/post_usecases.go:486-490 | the category's name appears once per selected ID equal to its ID |
| PostUseCases.MatchingNames | internal/service/post_usecases.go:484-491 | the list is empty exactly when no category is selected, and holds only names of selected categories |
| PostUseCases.MatchingNamesDistinct | internal/service/post_usecases.go:484-491 | with no repeated selection, each selected category is named once, in category-list order |
| PostUseCases.FilteredHeader | internal/service/post_usecases.go:484-496 | "All posts" exactly when no stored category is selected; otherwise the header starts with "Posts filtered by: ", and for a selection without repeats it is that prefix and the selected categories' names, in category order, joined by ", " |
| PostUseCases.GetFilteredPaginatedPostsDTO | internal/service/post_usecases.go:435-502 | the pagination URL is passed through and no user is set. An invalid selection lists all posts under "All posts", with the next-page flag saying whether more than a page exists. A valid one lists the category query's trimmed page under the joined names |
| PostUseCases.ValidSelectionMatches | internal/service/post_usecases.go:483-496 | a valid selection always names some category |
| PostUseCases.CheckText | internal/service/post_usecases.go:507-512 | the title gets an error exactly when it is blank, over 100 runes or refused by the pattern, with the first failing message; the form is valid exactly when all five checks pass |
| PostUseCases.CheckPostForm | internal/service/post_usecases.go:507-533 | the gate passes exactly when the text checks pass, the selection is non-empty and known, and no image error was recorded |
| PostUseCases.CheckPostFormVerdict | internal/service/post_usecases.go:507-536 | the gate's verdict written out: every single condition that must hold |
| PostUseCases.CheckPostFormTitle | internal/service/post_usecases.go:507-533 | category and image errors never replace the title's message |
| PostUseCases.CreatePostWithCategories | internal/service/post_usecases.go:505-565 | an unreadable image is an error; an invalid form is ErrInvalidCredentials; an unknown user is ErrNoRecord. A failure changes nothing. Success inserts exactly the new post under the new ID |
| PostUseCases.DeletePost | internal/service/post_usecases.go:711-746 | an unknown post is ErrNoRecord. Anyone else's request gets nil and changes nothing. The owner's request fails with the first image file that cannot be removed, changing nothing; otherwise it removes only that post |
| PostUseCases.FirstFailing | internal/service/post_usecases.go:734-741 | the position of the first image whose removal fails, or none when every removal succeeds |
| PostUseCases.DeleteComment | internal/service/post_usecases.go:748-762 | the same owner rule for comments |
| PostUseCases.DeleteOnlyOwn | internal/service/post_usecases.go:725-745 | no request deletes a post owned by someone else |
| ReactionUseCases.BranchOf | internal/service/reaction_usecases.go:75-145 | the first non-empty field among comment, post reaction and comment reaction picks the branch |
| ReactionUseCases.TogglePostReaction | internal/service/reaction_usecases.go:90-144 | the reaction table is toggled. Repeating a reaction removes its notification. A new one adds a notification. A switched one rewrites it. Only the reactions and notifications change |
| ReactionUseCases.TogglePostReactionAsWritten | internal/service/reaction_usecases.go:124-143 | as written: a switch between like and dislike returns the repository's error with nothing changed; the other transitions are as intended |
| ReactionUseCases.SwitchReactionAsWritten | internal/service/reaction_usecases.go:124-136 | as written, a user can never switch a post reaction: the request fails with the syntax error, and the old reaction and the notifications stay |
| ReactionUseCases.SwitchReactionCorrected | internal/repository/post_reaction_repository.go:89-98 | with the intended statement the switch succeeds: the pair holds the new reaction and each matching notification is rewritten in place with the new action and time |
| ReactionUseCases.CheckComment | internal/service/reaction_usecases.go:76-77 | the comment is refused exactly when it is blank or the pattern refuses it, under "comment" with the first failing message; every other field keeps its message |
| ReactionUseCases.UpdatePostReaction | internal/service/reaction_usecases.go:53-176 | an unknown user or post is ErrNoRecord, with nothing changed. The comment branch validates the comment, then inserts it and notifies the owner. The post branch toggles. The comment-reaction branch toggles exactly that user's reaction on the comment and changes nothing else |
| ReactionUseCases.ToggleOffLeavesNoNotification | internal/service/reaction_usecases.go:106-116 | after an unlike, no notification of that action remains for the owner, post and user |
| ReactionUseCases.RemoveNoMatch | internal/repository/post_reaction_repository.go:79-87 | removing by a key no row matches changes nothing |
| ReactionUseCases.ReactTwiceRestores | internal/service/reaction_usecases.go:106-142 | reacting twice the same way restores the reactions and notifications |
| ReactionUseCases.ReactToCommentTwice | internal/service/reaction_usecases.go:145-172 | reacting twice the same way to a comment restores the forum, except that an opposite reaction the user held is gone |
| ReactionUseCases.FirstReactionNotifies | internal/service/reaction_usecases.go:117-123 | a first reaction leaves exactly one new notification, for the post's owner |
| ReactionUseCases.GetAllPaginatedPostReportsDTO | internal/service/reaction_usecases.go:212-224 | reports use the same fetch-one-more trim |
| UserUseCases.CreateModerationRequest | internal/service/user_usecases.go:82-104 | a second request is ErrFormAlreadySubmitted. A blank or refused reason is ErrInvalidData. Success stores exactly the reason. An error changes nothing |
| UserUseCases.SecondRequestRefused | internal/service/user_usecases.go:83-90 | after one successful request, any further one is refused before its reason is read |
| UserUseCases.UpdatePassword | internal/service/user_usecases.go:70-80 | an unknown user is ErrNoRecord and a wrong current password is ErrInvalidCredentials; otherwise only the user's hash changes |
| UserUseCases.UpdatePasswordOnlyOwn | internal/service/user_usecases.go:70-80 | no other user's record changes |
| Memory.NewProvider | internal/memory/memory.go:12-17 | the initial provider is consistent and empty |
| Memory.IndexMatchesList | internal/memory/memory.go:75-101 | under the consistency invariant, the sids in the index are exactly those in the list |
| Memory.Without | internal/memory/memory.go:94-101 | unlinking keeps every other element, in order and without duplicates |
| Memory.WithoutKeepsOrder | internal/memory/memory.go:121-132 | unlinking keeps the recency order of the rest |
| Memory.SessionInit | internal/memory/memory.go:75-83 | corrected: a new empty store goes to the front of the list and is indexed under its sid |
| Memory.SessionInitAsWritten | internal/memory/memory.go:75-83 | as written: the new store goes to the back of the list |
| Memory.SessionRead | internal/memory/memory.go:85-92 | a known sid gives its store with nothing changed; an unknown sid gives a fresh empty store |
| Memory.SessionDestroy | internal/memory/memory.go:94-101 | the sid is forgotten and its element unlinked; an unknown sid changes nothing |
| Memory.SessionGC | internal/memory/memory.go:103-119 | drops expired elements from the back and stops at the first live one; the kept list is a prefix of the old one |
| Memory.SessionUpdate | internal/memory/memory.go:121-132 | the session is stamped with the current time and moved to the front; an unknown sid is an error and changes nothing |
| Memory.UpdateRefreshed | internal/memory/memory.go:121-132 | the refresh of a live session succeeds, moving it to the front and stamping it, and leaves every other store's time, sid and values alone |
| Memory.RefreshedFrame | internal/memory/memory.go:121-132 | a refresh keeps the index, the bindings, the element numbers, every sid and every other store's values |
| Memory.WriteRefreshed | internal/memory/memory.go:32-39 | writing the caller's values after the refresh keeps the provider well formed and the refresh intact |
| Memory.SessionBindUser | internal/memory/memory.go:134-147 | the user's previous session is destroyed, and the user is bound to the new sid |
| Memory.Set | internal/memory/memory.go:32-39 | refreshes the session (moved to the front of the list and stamped with the current time), then writes the value; every other store keeps its values; fails, changing nothing, when the sid is forgotten |
| Memory.Get | internal/memory/memory.go:41-52 | reads the stored value, nil for an absent key; the session is refreshed when its sid is indexed, and a failed refresh changes nothing |
| Memory.GetAll | internal/memory/memory.go:54-60 | returns every value of the store; the session is refreshed when its sid is indexed, and nothing else changes |
| Memory.Delete | internal/memory/memory.go:62-69 | refreshes the session, then removes the key; every other store keeps its values; fails, changing nothing, when the sid is forgotten |
| Memory.InitThenRead | internal/memory/memory.go:75-92 | a new session is found by the next read, empty |
| Memory.DestroyIdempotent | internal/memory/memory.go:94-101 | destroying twice is destroying once |
| Memory.SetThenGet | internal/memory/memory.go:32-52 | a value that is set is read back |
| Memory.DeleteThenGet | internal/memory/memory.go:41-69 | a deleted key reads as nil |
| Memory.SetAfterDestroyFails | internal/memory/memory.go:32-39 | a write through a destroyed session fails |
| Memory.InitConsistent | internal/memory/memory.go:75-83 | creating a session under a new sid keeps the index and the list in step |
| Memory.DestroyConsistent | internal/memory/memory.go:94-101 | destroying keeps the index and the list in step |
| Memory.UpdateConsistent | internal/memory/memory.go:121-132 | refreshing keeps the index and the list in step |
| Memory.BindConsistent | internal/memory/memory.go:134-147 | binding a user keeps the index and the list in step |
| Memory.GCConsistent | internal/memory/memory.go:103-119 | collecting keeps the index and the list in step |
| Memory.GCRemovesExactlyExpired | internal/memory/memory.go:103-119 | with the list in recency order, the collector removes exactly the expired sessions |
| Memory.InitKeepsRecent | internal/memory/memory.go:75-83 | the corrected `SessionInit` keeps the list in recency order |
| Memory.UpdateKeepsRecent | internal/memory/memory.go:121-132 | refreshing keeps the list in recency order |
| Memory.GCKeepsExpiredAsWritten | internal/memory/memory.go:75-119 | with the as-written `SessionInit`, an expired session survives collection |
| Memory.GCCollectsExpiredCorrected | internal/memory/memory.go:75-119 | with the corrected `SessionInit`, the same expired session is collected and the live one kept |
| Sessions.Register | internal/session/sessions.go:143-151 | a nil provider or a taken name panics; otherwise exactly that name is added |
| Sessions.NewManager | internal/session/sessions.go:38-44 | only a registered provider name gives a manager |
| Sessions.RegisterThenNewManager | internal/session/sessions.go:38-151 | a name registered once is then found |
| Sessions.SessionStart | internal/session/sessions.go:54-81 | with no usable cookie, a new session is created; otherwise the cookie's session is read, and re-created if forgotten |
| Sessions.ManagerSessionDestroy | internal/session/sessions.go:154-166 | destroys the cookie's session if there is a cookie, and otherwise changes nothing |
| Sessions.CopyValues | internal/session/sessions.go:109-112 | the new session ends up holding exactly the old values; the index, the bindings and every other store's values are unchanged |
| Sessions.SetOnLive | internal/memory/memory.go:32-39 | `Set` on a live session writes exactly that key, keeps the index and bindings, and leaves every other store's values alone |
| Sessions.RenewToken | internal/session/sessions.go:83-124 | no cookie is an error. Otherwise the values move to the new sid, the old sid is gone, the user is bound to the new sid and the session it was bound to before is destroyed, no other session appears, and every other session keeps its values |
| Sessions.RenewPrepare | internal/session/sessions.go:93-112 | reading the old session, taking its values and copying them into the new sid leaves every other session where it was |
| Sessions.TakeOld | internal/session/sessions.go:94-110 | `SessionRead` then `GetAll` yield the old session's values (none for a forgotten sid) and disturb no other session |
| Sessions.ReadUntouched | internal/memory/memory.go:85-92 | `SessionRead` leaves every other session where it was, with its values |
| Sessions.GetAllKeepsValues | internal/memory/memory.go:54-60 | `GetAll` changes no store's values |
| Sessions.RenewFrame | internal/session/sessions.go:114-124 | the sessions untouched before the destroy survive it and the new binding, except the one the user was bound to |
| Sessions.DestroyAndBind | internal/session/sessions.go:114-124 | destroying the old sid and binding the user keeps the new session and its store, drops the old sid and the user's previous session, keeps every other session and adds no sid |
| Middleware.New | internal/handler/middleware.go:24-26 | the chain holds the middlewares in the order given |
| Middleware.Append | internal/handler/middleware.go:29-31 | the old middlewares come first, then the new ones |
| Middleware.Then | internal/handler/middleware.go:34-40 | wraps from the last middleware to the first, so the first is outermost |
| Middleware.NestAppend | internal/handler/middleware.go:29-40 | an appended chain wraps the old chain around the new one |
| Middleware.NestLayers | internal/handler/middleware.go:34-40 | a request meets the middlewares in chain order |
| Middleware.VerifyCSRF | internal/handler/middleware.go:92-128 | a non-POST request passes. A POST passes exactly when its token equals the session's token, which is a fresh one if the session has none. Otherwise the answer is 403 |
| Middleware.CsrfMismatchForbidden | cmd/web/middleware.go:84-115 | a POST whose token differs from the stored one is refused with 403 |
| Middleware.RequireAuthentication | internal/handler/middleware.go:191-209 | an anonymous request stores its path and is redirected to login with 303; an authenticated one passes with "no-store" |
| Middleware.RequireModeration | internal/handler/middleware.go:211-228 | only a moderator or admin passes; no role is 500 and any other role is 403 |
| Middleware.HasAccess | cmd/web/middleware.go:204-224 | holds exactly for admin and moderator, whatever the path |
| Middleware.UserNeverHasAccess | cmd/web/middleware.go:214-223 | a plain user is refused every path |
| Middleware.RateLimit | internal/handler/middleware.go:256-271 | passes and counts exactly while the visitor's count is under 120; otherwise 429; other visitors' counts are unchanged |
| Middleware.RunRequestsCounts | internal/handler/middleware.go:256-271 | a visitor's passes are exactly the growth of its counter, which never exceeds the rate |
| Middleware.AtMostRatePass | internal/handler/middleware.go:252-271 | without the periodic clean-up, a visitor gets at most 120 requests through |
| Templates.Contains | internal/handler/templates.go:61-68 | true exactly when the element is in the slice |
| Templates.Renderings | internal/handler/templates.go:70-74 | each item is written with `strconv.Itoa`, in order |
| Templates.JoinInts | internal/handler/templates.go:70-76 | empty exactly when there are no items; its length is the digits plus one separator between each pair of items |
| Templates.Split | internal/handler/templates.go:70-76 | splitting always yields at least one piece |
| Templates.SplitPrefix | internal/handler/templates.go:70-76 | a separator-free prefix is the first piece |
| Templates.SplitJoin | internal/handler/templates.go:70-76 | splitting a join on a separator no piece contains gives the pieces back |
| Templates.RenderingAvoids | internal/handler/templates.go:70-76 | a written number contains no rune other than digits and '-' |
| Templates.JoinIntsRoundTrip | internal/handler/templates.go:70-76 | splitting the join and parsing each piece gives the int64 items back |
| Templates.GetUserReaction | internal/handler/templates.go:25-34 | 1 exactly for a like, -1 exactly for a dislike, 0 exactly for no reaction |
| Templates.GetUserReactionReactors | internal/handler/templates.go:25-34 | the sign says whether the user is a liker, a disliker or not a reactor |
| Templates.WrapInt64 | internal/handler/templates.go:80-81 | the result lies in int64, equals the input modulo 2^64, and is the input when it already fits |
| Templates.Add | internal/handler/templates.go:80 | the result lies in int64 and is the true sum when that fits |
| Templates.Sub | internal/handler/templates.go:81 | the result lies in int64 and is the true difference when that fits |
| Templates.SubUndoesAdd | internal/handler/templates.go:80-81 | `sub` undoes `add`, even when the addition wraps around |
| WebHandlers.ViewID | cmd/web/handlers.go:32-36 | the path value passes exactly when `Atoi` accepts it and it is at least 1 |
| WebHandlers.ViewIDAcceptsValidID | cmd/web/handlers.go:32-36 | every ID `ValidateID` accepts reaches the lookup with the same value |
| WebHandlers.ViewIDAcceptsRendering | cmd/web/handlers.go:32-36 | every positive int64 written in decimal is looked up as itself |
| WebHandlers.ViewIDExamples | cmd/web/handlers_test.go:51-70 | the tests' "-1", "0", "1.23", "foo" and "" are refused; "01" and "+1" pass, unlike with `ValidateID` |
| WebHandlers.AtoiAll | cmd/web/handlers.go:100-108 | the reference reading of the category values: none exactly when some value is not a number, otherwise each value's number in order |
| WebHandlers.ParseCategoryIDs | cmd/web/handlers.go:100-108 | the loop fails exactly when some value is not a number, otherwise parses every value in order: it computes the reference reading |
| WebHandlers.ScanWebCategories | cmd/web/handlers.go:142-150 | keeps the known IDs and writes "invalid" exactly when some ID is unknown |
| WebHandlers.ValidateWebForm | cmd/web/handlers.go:117-158 | the title, content and categories each get an error exactly when their own check fails, with the message that check writes |
| WebHandlers.WebCategoriesSelection | cmd/web/handlers.go:152-157 | the known IDs are kept when there are any; otherwise category 1 is selected and "invalid" recorded |
| WebHandlers.WebAndServiceCategories | cmd/web/handlers.go:134-158 | where some ID is known, the handler and the service keep the same selection; where none is, the handler falls back to [1] and the service keeps the input |
| WebHandlers.PostCreate | cmd/web/handlers.go:100-169 | 400 exactly when some value is not a number. The post is inserted, for user 1 with exactly the parsed IDs, exactly when all IDs are known and non-empty and the title and content pass. Otherwise 422 with exactly the form the handler's checks build from the title, the content and the parsed IDs |
| Env.Cut | pkg/utils/env.go:23-26 | the line is the key, "=", then the value, and the key holds no "=" |
| Env.CutUnique | pkg/utils/env.go:23-26 | the cut is the only way to split a line into an "="-free key, "=" and a value |
| Env.ParseEnvLine | pkg/utils/env.go:20-28 | a line is skipped exactly when it is empty, starts with '#' or has no "=" |
| Env.ParseEnvLineTrimmed | pkg/utils/env.go:23-28 | a parsed key and value are the trimmed halves of the cut, and the key holds no "=" |
| Env.ParseEnvLineRoundTrip | pkg/utils/env.go:20-28 | a trimmed key without "=" and a trimmed value, written as key=value, parse back to themselves |
| Env.ParseEnvLineExamples | pkg/utils/env.go:20-26 | empty, commented and "="-free lines are skipped |
| Env.IndentedHashIsKey | pkg/utils/env.go:20-28 | a '#' after leading blanks does not start a comment |
| Env.LoadEnv | pkg/utils/env.go:18-31 | succeeds exactly when `os.Setenv` accepts every pair, and then every name holds its last assignment. On failure, the lines before the first refused pair have been applied |
| Env.FinalAppend | pkg/utils/env.go:18-31 | a later line's assignment wins over an earlier one |
| NavScript.FirstMatch | ui/static/js/main.js:2-8 | the position of the first link whose href equals the path, or none when no link's does |
| NavScript.Highlight | ui/static/js/main.js:1-8 | only the first matching link gains "live", and the loop stops after it; with no match, nothing changes |
| NavScript.AtMostOneMarked | ui/static/js/main.js:4-6 | at most one link changes, and it is a current one |
| NavScript.ExactComparison | ui/static/js/main.js:4 | a trailing slash, a query string or a missing href does not match |
| NavScript.CommentTimeText | ui/static/js/main.js:13-31 | an unparsable time shows "Invalid date". A parsable one shows its formatted date. A missing attribute shows the epoch |
| NavScript.RewriteTimes | ui/static/js/main.js:12-32 | each element is rewritten on its own |
| NavScript.UnparsableShowsInvalid | ui/static/js/main.js:29-31 | an element whose time does not parse shows "Invalid date", whatever the others hold |

## Left out

- SQL text, joins, ordering and database errors. Every repository call that can fail with a driver error is assumed to succeed, except the `ErrNoRecord` outcomes the use cases test for.
- HTTP plumbing: rendering templates, writing responses, parsing forms (a `ParseForm` error in `postCreate` is a 400 that is not modelled), setting cookies and unescaping cookie values. The `postCreate` redirect to the new post and its category-fetch server error are left out too.
- Password hashing (bcrypt), UUID and CSRF token generation, and the current time: these are parameters.
- The `TextRX` regular expression: a parameter.
- File I/O for images: `ValidateImageFiles` becomes the `ImageCheck` verdict, and `uploadImages` becomes the given paths. `UpdatePostWithImage`, `UpdateComment`, `GetPostDTO`, `GetCommentedPostDTO` and the notification listing are outside the modelled core.
- Concurrency: the provider's and manager's mutexes, the `Manager.GC` timer and the rate limiter's `cleanupVisitors` goroutine. Each operation is modelled as atomic.
- `verifyCSRF`: the 500 answers when `SessionStart` or storing a new token fails are not modelled.
- Memory.Value: session values are only ints and strings, the kinds the forum stores.
- The cmd/web copies of `New`, `Append` and `Then` are the same code as the internal ones, and are modelled once.
- Env.LoadEnv: opening the file and splitting it into lines (`bufio.Scanner`, including its long-line error) are left out; the file is given as its lines.
- NavScript.CommentTimeText: the browser's date parsing and `toLocaleString` are parameters, so the concrete format is not stated.
- Validator.ValidateID: Unicode digits other than ASCII pass `unicode.IsDigit` and then fail in `strconv.Atoi`. Both give an error, but the model does not distinguish the two messages for such input.
- Memory.SessionRead: an unknown sid creates its session with the corrected `SessionInit`, which puts it at the front of the recency list. Go's `SessionRead` calls the `PushBack` one (memory.go:89, 80). The as-written insertion is `Memory.SessionInitAsWritten`, and the Findings section shows where the two differ.
- Sessions.SessionStart: the new session of a request without a cookie, and the re-created one of a forgotten sid, come from the corrected front-of-list `SessionInit`, while Go's calls the `PushBack` one (sessions.go:60, 78).
- Sessions.RenewToken: the session under the new sid is created with the corrected front-of-list `SessionInit`, while Go's calls the `PushBack` one (sessions.go:95, 104). The model states nothing about where in the recency list the new session lands.
- PostUseCases.DeletePost: when an image removal fails, the files removed before it stay removed in Go. The model does not track image files, so only the error and the untouched post are stated.
- The older parallel trees of the repository (handler/, handlers/, service/, usecases/, repositories/, internal/models/) are not part of this model.

## Findings

| source | as written | input that shows it | evidently intended | confidence | as-written member | corrected member |
|---|---|---|---|---|---|---|
| internal/memory/memory.go:75-83 | `SessionInit` puts a new session at the back of the recency list (`PushBack`). `SessionGC` (lines 103-119) scans from the back and stops at the first live session | create "a" at t=0 and "b" at t=100, then collect with a lifetime of 10 at t=105: "b" is at the back and live, so the expired "a" survives | a new session is the most recently used, so it goes to the front, as `SessionUpdate` puts it; then collection removes exactly the expired sessions | medium, not executed | Memory.GCKeepsExpiredAsWritten | Memory.GCRemovesExactlyExpired |
| internal/repository/post_reaction_repository.go:89-98 | `UpdateNotification` ends its `WHERE` clause with `AND action_type = ?, comment_id = NULL`. SQLite rejects the comma, so the statement always fails, and `UpdatePostReaction` returns that error (internal/service/reaction_usecases.go:132-135) before `AddReaction` | a user likes a post, then dislikes it: the request fails and the like stays | the notification of the old action is rewritten to the new one, and the reaction switches | high, not executed | ReactionUseCases.SwitchReactionAsWritten | ReactionUseCases.SwitchReactionCorrected |
