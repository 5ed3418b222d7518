# Blog front end: a Dafny model of its view logic

This project models the client and server components of a Next.js blog whose
backend is a hosted Postgres service. What is modelled is the bookkeeping the
components do around the backend calls:

- the threaded comment section: roots and replies, posting with a one-shot
  fallback insert, deleting a comment with its direct replies, and the
  id-to-secret ledger in local storage that lets an author delete later;
- the admin moderation list: approve or unapprove, delete;
- the post editor: the slug generated from the title, the excerpt fallback,
  the comma-separated tag field, and the payload of Publish / Save as Draft;
- the admin posts table: the case-insensitive search, the row selection and
  the bulk actions;
- the poll: vote counts, rounded percentages, one vote per user, and the
  `loading` guard;
- the optimistic bookmark toggle and its revert;
- the announcement popup: shown once per content version, never on admin pages;
- the user menu: the hard-coded administrator address and the display-name
  fallback chain;
- the home page: the Latest feed and the three most-read posts.

Each component is one module. Component state lives in a `class`, and every
handler is a `method` whose `modifies` clause names the state fields it sets.
The pure parts are functions with named results and lemmas: filters, the slug
and tag transformations, percentages, the sort, and the labels.

Every backend answer is a parameter of the handler that awaits it. This covers
insert, update, delete, the remote procedure, the session user and the
confirmation dialog. An `await` that separates a visible state change from its
outcome splits the handler in two: `Click`/`Finish` for the bookmark and
`HandleVote`/`FinishVote` for the poll. That way the in-flight guard can be
stated as a class invariant (`Valid()`).

Helper modules:

- `Wrappers`: `Option`.
- `Seqs`: JavaScript's `filter` and `slice(0, n)`.
- `Ascii`: the JavaScript string methods the components call, over ASCII. These
  are `toLowerCase`, `toUpperCase`, `trim`, `includes`, `split` and `join`.
- `Posts`: the `posts` row.

`handleSubmit` (src/components/blog/CommentSection.tsx, lines 73-143) does not
check the comment body. Only the textarea's `required` attribute stops an empty
one, and a body of spaces gets past it, so `HandleSubmit` sends whatever body
the form holds.

## Model

| member | source | states |
|---|---|---|
| Seqs.Filter | src/components/admin/AdminPostsTable.tsx:25-33 | `filter` keeps exactly the elements passing the test, in their order, each with its multiplicity |
| Seqs.Take | src/app/page.tsx:61 | `slice(0, n)` keeps the first n elements, or all when there are fewer |
| Ascii.Lower | src/components/admin/AdminPostsTable.tsx:26 | `toLowerCase` keeps the length, maps each upper-case letter to the letter 32 code points above it, leaves no upper-case letter and changes nothing else |
| Ascii.Upper | src/components/blog/CommentSection.tsx:177 | `toUpperCase` keeps the length, maps each lower-case letter to the letter 32 code points below it, leaves no lower-case letter and changes nothing else |
| Ascii.Trim | src/components/admin/PostEditor.tsx:55 | `trim` returns a contiguous piece of the input with only white space cut from either end, and the result has none left at its ends |
| Ascii.Split | src/components/admin/PostEditor.tsx:55 | `split(d)` gives at least one piece, no piece contains d, and there is exactly one piece iff d does not occur |
| Ascii.Join | src/components/admin/PostEditor.tsx:31 | `join` of a single piece is that piece; with Split it forms the round trips JoinSplit and SplitJoin |
| Ascii.JoinSplit | src/components/layout/UserMenu.tsx:28 | joining the pieces of a split with the separator gives back the string |
| Ascii.SplitJoin | src/components/admin/PostEditor.tsx:31 | splitting a join of comma-free pieces gives back the pieces |
| Identity.LocalPart | src/components/layout/UserMenu.tsx:28 | `email.split('@')[0]` is a prefix of the address without '@', followed by the first '@' when one exists |
| Identity.LocalPartOfAddress | src/components/layout/UserMenu.tsx:28 | the local part of `user@domain` is `user` |
| Identity.DisplayName | src/components/layout/UserMenu.tsx:28 | the shown name is never empty: the fixed administrator name for the admin address, else the full name, else the non-empty local part, else "User" |
| Identity.AdminNameIgnoresMetadata | src/components/layout/UserMenu.tsx:26-28 | two administrator accounts show the same fixed name, whatever their metadata |
| Identity.AdminTestIsCaseSensitive | src/components/layout/UserMenu.tsx:26 | the administrator test is exact: a differently capitalised address that lower-cases to it is not the administrator |
| Identity.Menu | src/components/layout/UserMenu.tsx:52-95 | the verified badge and the dashboard link appear iff the email is the administrator address |
| Comments.Roots | src/components/blog/CommentSection.tsx:183 | the top-level list holds exactly the comments with a null or empty parent, in list order |
| Comments.Replies | src/components/blog/CommentSection.tsx:301 | the replies under a comment are exactly the comments whose parent is its id, in list order |
| Comments.RenderedAt | src/components/blog/CommentSection.tsx:429-445 | the comments drawn at each depth: the roots at depth 0, and the replies of a comment drawn at depth d at depth d + 1; its properties are the three lemmas below |
| Comments.RenderedHasParent | src/components/blog/CommentSection.tsx:429-445 | a drawn comment is in the list and is a root or the reply of a comment of the list |
| Comments.OrphanIsNeverRendered | src/components/blog/CommentSection.tsx:429-445 | a comment whose parent id matches no comment is drawn at no depth |
| Comments.ReplyOfRenderedIsRendered | src/components/blog/CommentSection.tsx:429-445 | replies nest to any depth: a reply to a drawn comment is drawn one level deeper |
| Comments.Initials | src/components/blog/CommentSection.tsx:171-178 | at most two characters, none lower-case, the first being the upper-cased first letter of a name that does not start with a space |
| Comments.InitialsOfFirstTwoWords | src/components/blog/CommentSection.tsx:171-178 | a name whose first two space-separated words are non-empty gives the upper-cased first letters of those two words, whatever follows them |
| Comments.InitialsOfOneWord | src/components/blog/CommentSection.tsx:171-178 | a one-word name gives its upper-cased first letter alone |
| Comments.InitialsOfEmptyName | src/components/blog/CommentSection.tsx:171-178 | the empty name gives no initials |
| Comments.InitialsOfPieces | src/components/blog/CommentSection.tsx:171-178 | the initials are the upper-cased first letters of the first two pieces of the name split at spaces, when both are non-empty |
| Comments.RemoveWithReplies | src/components/blog/CommentSection.tsx:160 | after a delete the list keeps exactly the comments that are neither the deleted one nor its direct replies, in order and with their multiplicity |
| Comments.DeleteKeepsDeeperReplies | src/components/blog/CommentSection.tsx:160 | the cascade is one level deep: a reply to a reply stays, and nothing with the deleted id or parent remains |
| Comments.DeleteExampleKeepsNested | src/components/blog/CommentSection.tsx:160 | deleting root "1" of the chain 1 <- 2 <- 3 leaves only comment "3" |
| Comments.DeleteExampleOrphansNested | src/components/blog/CommentSection.tsx:429-445 | the comment "3" left by that delete is drawn nowhere |
| Comments.ForgetSecret | src/components/blog/CommentSection.tsx:163-167 | the ledger entry is dropped only when it was truthy, other entries stay as they were, and no truthy entry for the id remains |
| Comments.ShowsDelete | src/components/blog/CommentSection.tsx:364 | the delete control shows for the administrator, for a truthy ledger entry of the comment and for its author; DeleteHiddenFromStrangers and SubmitterSeesDelete state both sides |
| Comments.DeleteHiddenFromStrangers | src/components/blog/CommentSection.tsx:364 | a non-admin viewer who holds no truthy secret for the comment and is not its author sees no delete control |
| Comments.SubmitterSeesDelete | src/components/blog/CommentSection.tsx:133-134 | after posting, the author sees the delete control of the new comment |
| Comments.NextReplyTarget | src/components/blog/CommentSection.tsx:357 | clicking Reply targets the comment unless it was already the target, in which case the form closes |
| Comments.ReplyToggleTwice | src/components/blog/CommentSection.tsx:357 | clicking Reply twice on the same comment, when no other reply form was open, restores the previous target |
| Comments.CommentSection.constructor | src/components/blog/CommentSection.tsx:27-39 | the initial state: the given comments, no user, empty form, empty ledger |
| Comments.CommentSection.Load | src/components/blog/CommentSection.tsx:43-71 | the session user is stored; with a session the admin flag is the exact address test and the name and email are pre-filled by the fallback rules, while without one the admin flag, name and email keep their values; a stored ledger replaces the current one |
| Comments.CommentSection.HandleSubmit | src/components/blog/CommentSection.tsx:73-143 | with no user nothing changes; otherwise the avatar insert is sent, a second insert without the avatar only if the first failed; on success the comment is appended, its secret recorded, the body and reply target cleared; on failure only the error banner changes |
| Comments.CommentSection.HandleDelete | src/components/blog/CommentSection.tsx:145-169 | without confirmation nothing happens; the remote procedure gets the secret only when it is truthy; on success the comment and its direct replies leave the list and its secret is forgotten; on failure nothing changes |
| Comments.CommentSection.ToggleReply | src/components/blog/CommentSection.tsx:352-358 | a visitor is sent to login with the target unchanged; a user toggles the reply target |
| Comments.CommentSection.CancelReply | src/components/blog/CommentSection.tsx:399 | Cancel closes the reply form |
| Moderation.WithApproval | src/components/admin/CommentList.tsx:37 | same length, rows with another id untouched, rows with that id get the new status and change in nothing else |
| Moderation.ApproveTwiceRestores | src/components/admin/CommentList.tsx:27-40 | approving then unapproving (or the reverse) restores the list |
| Moderation.WithoutId | src/components/admin/CommentList.tsx:50 | the delete keeps exactly the comments with another id, in order; replies are not cascaded |
| Moderation.StatusLabel | src/components/admin/CommentList.tsx:95 | "Approved" iff approved, "Pending" iff not |
| Moderation.ActionLabel | src/components/admin/CommentList.tsx:107 | the button names the status the click will set |
| Moderation.CommentList.constructor | src/components/admin/CommentList.tsx:22 | the list starts as the given comments |
| Moderation.CommentList.HandleApprove | src/components/admin/CommentList.tsx:27-40 | the new status is the negation of the current one, applied to that id only when the update succeeds |
| Moderation.CommentList.HandleDelete | src/components/admin/CommentList.tsx:42-53 | after confirmation and a successful delete only that id leaves the list; otherwise nothing changes |
| Editor.CollapseRuns | src/components/admin/PostEditor.tsx:88 | replacing runs outside `[a-z0-9]` by `-` gives a string over `[a-z0-9-]` with no doubled dash, empty iff the input is, starting with a dash iff the input started outside the class, and keeping the input's letters and digits in order |
| Editor.SlugCharsConcat | src/components/admin/PostEditor.tsx:88 | the letters and digits of a concatenation are those of each part, in order |
| Editor.CollapseWordPrefix | src/components/admin/PostEditor.tsx:88 | a prefix of letters and digits is kept unchanged, and collapsing goes on after it |
| Editor.RunEndAt | src/components/admin/PostEditor.tsx:88 | a run outside `[a-z0-9]` ends at the first letter or digit, or at the end of the string |
| Editor.CollapseRunPrefix | src/components/admin/PostEditor.tsx:88 | a whole run of characters outside `[a-z0-9]`, followed by a letter, a digit or nothing, becomes exactly one `-` |
| Editor.TrimDashes | src/components/admin/PostEditor.tsx:88 | the result is exactly the input without one leading dash, if there is one, and one trailing dash, if there is one; it keeps the alphabet, and a string without doubled dashes ends with no dash at either end |
| Editor.TrimDashesKeepsSlugChars | src/components/admin/PostEditor.tsx:88 | cutting the end dashes keeps every letter and digit |
| Editor.Slugify | src/components/admin/PostEditor.tsx:88 | a generated slug is well formed (lower-case letters, digits, single inner dashes, no dash at the ends) and holds exactly the letters and digits of the lower-cased title, in order |
| Editor.CollapseRunsKeepsSlugBody | src/components/admin/PostEditor.tsx:88 | collapsing a string of slug characters with single inner dashes changes nothing |
| Editor.SlugifyKeepsSlug | src/components/admin/PostEditor.tsx:88 | slugifying a well-formed slug returns it |
| Editor.SlugifyIdempotent | src/components/admin/PostEditor.tsx:88 | slugifying twice is slugifying once |
| Editor.SlugifyTwoWords | src/components/admin/PostEditor.tsx:88 | two words of lower-case letters and digits, separated by anything with no letter or digit even after lower-casing, give the two words joined by one `-` |
| Editor.LowerAroundWord | src/components/admin/PostEditor.tsx:88 | lower-casing leaves words of lower-case letters and digits unchanged and lower-cases what lies between them |
| Editor.NextSlug | src/components/admin/PostEditor.tsx:87-88 | a new post with an empty slug takes the slug of the new title (`Slugify(newTitle)`, which is well formed); otherwise the slug is kept |
| Editor.SlugIsTakenFromFirstKeystroke | src/components/admin/PostEditor.tsx:87-88 | typing "Hi" one letter at a time leaves the slug "h": the slug freezes once it is non-empty |
| Editor.SkipTag | src/components/admin/PostEditor.tsx:52 | after a `<`, the text after the first `>` is kept: empty when there is no `>`, otherwise the suffix right after the first `>` |
| Editor.SkipClosedTag | src/components/admin/PostEditor.tsx:52 | skipping a tag body without `>` followed by `>` leaves exactly the text after it |
| Editor.StripTags | src/components/admin/PostEditor.tsx:52 | the stripped content has no `<`, is no longer than the input, and is the input itself when it had no `<`; StripPlainPrefix, StripClosedTag and StripUnclosedTag state which text outside tags it keeps |
| Editor.StripPlainPrefix | src/components/admin/PostEditor.tsx:52 | text without `<` in front of the rest is kept unchanged |
| Editor.StripClosedTag | src/components/admin/PostEditor.tsx:52 | a closed tag `<t>` is removed and the text before and after it kept: strip(a + "<" + t + ">" + b) is a + strip(b) |
| Editor.StripUnclosedTag | src/components/admin/PostEditor.tsx:52 | a `<` that is never closed removes everything from it to the end |
| Editor.SavedExcerpt | src/components/admin/PostEditor.tsx:52 | a typed excerpt is saved verbatim; otherwise the first min(150, length) characters of the tag-free content followed by "...", so exactly 3 + min(150, length) characters |
| Editor.TrimmedPieces | src/components/admin/PostEditor.tsx:55 | one trimmed, comma-free piece per piece of the split |
| Editor.TrimmedPiecesMembers | src/components/admin/PostEditor.tsx:55 | the trimmed pieces are exactly the trims of the pieces of the split |
| Editor.ParseTags | src/components/admin/PostEditor.tsx:55 | the saved tags are the non-empty trimmed pieces of the split, in their order, each as often as it occurs |
| Editor.ParseTagsClean | src/components/admin/PostEditor.tsx:55 | every saved tag is non-empty, trimmed and comma-free |
| Editor.ParseTagsMembers | src/components/admin/PostEditor.tsx:55 | a string is a saved tag iff it is non-empty and the trim of some piece of the split |
| Editor.TagsRoundTrip | src/components/admin/PostEditor.tsx:31 | saving the field `tags.join(', ')` unedited gives back the same clean tags |
| Editor.SavedImage | src/components/admin/PostEditor.tsx:56 | an empty image field is saved as null, any other verbatim |
| Editor.Payload | src/components/admin/PostEditor.tsx:49-58 | the payload has the pressed button as `published`, the form's title, slug and content, the saved excerpt, the parsed tags and the saved image |
| Editor.RequestFor | src/components/admin/PostEditor.tsx:60-72 | an edited post is updated by its id, a new one inserted, with the same payload |
| Editor.PostEditor.constructor | src/components/admin/PostEditor.tsx:24-32 | the form starts from the post's fields, with tags joined by ", " and a missing image as "", or empty for a new post |
| Editor.PostEditor.HandleTitleChange | src/components/admin/PostEditor.tsx:84-90 | the title is set and the slug follows the slug rule |
| Editor.PostEditor.HandleSubmit | src/components/admin/PostEditor.tsx:44-81 | the request carries the payload of the form as it was; navigation happens iff the save succeeded; a failure shows its message and re-enables the form |
| PostsTable.Matches | src/components/admin/AdminPostsTable.tsx:25-32 | the search test: title, slug, non-empty excerpt or some tag includes the query, all lower-cased; FilterPosts, EmptyQueryKeepsAll and SearchIgnoresQueryCase state its properties |
| PostsTable.FilterPosts | src/components/admin/AdminPostsTable.tsx:25-33 | exactly the posts whose title, slug, non-empty excerpt or some tag includes the query, all compared lower-cased, in order |
| PostsTable.EmptyQueryKeepsAll | src/components/admin/AdminPostsTable.tsx:25-33 | an empty search box shows every post |
| PostsTable.SearchIgnoresQueryCase | src/components/admin/AdminPostsTable.tsx:26 | a query and its lower-cased form match the same posts |
| PostsTable.Toggle | src/components/admin/AdminPostsTable.tsx:43-51 | the clicked id changes membership and every other id keeps its own |
| PostsTable.ToggleTwice | src/components/admin/AdminPostsTable.tsx:43-51 | clicking the same row twice restores the selection |
| PostsTable.IdsOfMembers | src/components/admin/AdminPostsTable.tsx:39 | the id set holds exactly the ids of the shown posts |
| PostsTable.ToggleAll | src/components/admin/AdminPostsTable.tsx:35-41 | a selection that looks complete is cleared, otherwise exactly the shown ids are selected |
| PostsTable.AllSelectedIgnoresMembership | src/components/admin/AdminPostsTable.tsx:87 | the header box compares sizes only: one selected id that is not shown checks it |
| PostsTable.IdsOfDistinct | src/components/admin/AdminPostsTable.tsx:39 | with distinct ids there are as many ids as shown posts |
| PostsTable.ToggleAllThenClear | src/components/admin/AdminPostsTable.tsx:35-41 | with distinct ids, select-all checks the header box and a second click clears the selection |
| PostsTable.AdminPostsTable.constructor | src/components/admin/AdminPostsTable.tsx:19-21 | nothing selected, not loading, empty search |
| PostsTable.AdminPostsTable.SetSearchQuery | src/components/admin/AdminPostsTable.tsx:98 | typing sets the query and keeps the selection |
| PostsTable.AdminPostsTable.ToggleOne | src/components/admin/AdminPostsTable.tsx:43-51 | the selection becomes the toggled one |
| PostsTable.AdminPostsTable.ToggleAllRows | src/components/admin/AdminPostsTable.tsx:35-41 | the selection becomes the select-all toggle over the shown rows |
| PostsTable.AdminPostsTable.BulkDelete | src/components/admin/AdminPostsTable.tsx:53-69 | without confirmation nothing is sent; otherwise the selected ids are deleted, the selection is cleared only on success, and loading ends |
| PostsTable.AdminPostsTable.BulkStatusChange | src/components/admin/AdminPostsTable.tsx:71-85 | the selected ids get the chosen status, the selection is cleared only on success, and loading ends |
| Polls.TotalVotes | src/components/blog/Poll.tsx:31 | the sum of the vote counts; TotalVotesRemove, CountAtMostTotal and AddVoteTotal state its properties |
| Polls.TotalVotesRemove | src/components/blog/Poll.tsx:31 | the total is the same whichever option is summed first |
| Polls.CountAtMostTotal | src/components/blog/Poll.tsx:31 | no option has more votes than the total |
| Polls.AddVote | src/components/blog/Poll.tsx:53-56 | a vote adds one to its option, leaves the others alone and adds the option as a key |
| Polls.AddVoteTotal | src/components/blog/Poll.tsx:53-56 | a vote adds exactly one to the total |
| Polls.Percentage | src/components/blog/Poll.tsx:61-64 | 0 for an empty poll, otherwise `100 * count / total` rounded to the nearest integer with halves rounded up |
| Polls.PercentageBounded | src/components/blog/Poll.tsx:61-64 | a count no larger than the total gives a percentage between 0 and 100 |
| Polls.OptionPercentageBounded | src/components/blog/Poll.tsx:72-73 | every option's bar is between 0 and 100 per cent |
| Polls.Poll.constructor | src/components/blog/Poll.tsx:23-26 | the initial votes and user vote, nothing in flight |
| Polls.Poll.HandleVote | src/components/blog/Poll.tsx:33-40 | a visitor is redirected and a click during a vote is ignored, both with nothing changed; otherwise the insert for this user and option is sent and loading starts |
| Polls.Poll.FinishVote | src/components/blog/Poll.tsx:49-58 | on success the option becomes the user's vote and gains one vote (the total rises by one); on failure votes and user vote are unchanged; loading ends either way |
| Polls.Poll.Click | src/components/blog/Poll.tsx:80-81 | a disabled option (results shown or loading) does nothing; otherwise it starts the vote |
| Bookmarks.RequestFor | src/components/blog/BookmarkButton.tsx:37-53 | a bookmarked post is removed, any other added, for that user and post |
| Bookmarks.Settled | src/components/blog/BookmarkButton.tsx:30-58 | the optimistic flip stands iff a session user was found and the call succeeded |
| Bookmarks.BookmarkButton.constructor | src/components/blog/BookmarkButton.tsx:15-16 | the initial bookmark state, nothing in flight |
| Bookmarks.BookmarkButton.Click | src/components/blog/BookmarkButton.tsx:20-31 | a visitor is redirected; a click while loading does nothing; otherwise the shown state flips at once and the call starts |
| Bookmarks.BookmarkButton.Finish | src/components/blog/BookmarkButton.tsx:33-61 | the request matches the state before the click; the state settles to the flip or reverts; loading ends |
| Popup.ShouldShow | src/components/layout/SitePopup.tsx:24-46 | the popup opens only off admin pages, for an enabled setting, when nothing was dismissed or the content is newer than the dismissed version; ClosedStaysClosed and NewerContentShows state its properties |
| Popup.CurrentVersion | src/components/layout/SitePopup.tsx:41 | `lastUpdated || 0` |
| Popup.DismissVersion | src/components/layout/SitePopup.tsx:59-66 | closing stores `lastUpdated` when it is truthy, the current time otherwise |
| Popup.ClosedStaysClosed | src/components/layout/SitePopup.tsx:40-66 | once closed, the same content does not show again on any page |
| Popup.NewerContentShows | src/components/layout/SitePopup.tsx:44 | content saved later than the dismissed version shows again |
| Popup.CloseControlOf | src/components/layout/SitePopup.tsx:104-119 | a link with the button text when both text and link are truthy, else the "Got it" button |
| Popup.SitePopup.constructor | src/components/layout/SitePopup.tsx:11-20 | closed, no settings, the stored dismissal |
| Popup.SitePopup.Load | src/components/layout/SitePopup.tsx:23-57 | the popup opens with the setting iff it is not an admin page, the setting is enabled and its version is newer than the dismissed one; otherwise nothing changes |
| Popup.SitePopup.HandleClose | src/components/layout/SitePopup.tsx:59-66 | closing hides the popup and stores the dismissal version |
| Home.InsertByViews | src/app/page.tsx:59-60 | inserting a post into a list adds exactly that post |
| Home.InsertKeepsSorted | src/app/page.tsx:59-60 | inserting into a list sorted by views keeps it sorted |
| Home.SortByViews | src/app/page.tsx:59-60 | the sorted copy is a permutation of the posts, ordered by views descending, with a missing count as 0 |
| Home.TopRead | src/app/page.tsx:59-61 | the first three posts of the sorted copy; TopReadSize, TopReadOrdered, TopReadFromPosts and TopReadIsTop state its properties |
| Home.TopReadSize | src/app/page.tsx:59-61 | Top Read holds three posts, or all of them when there are fewer |
| Home.TopReadOrdered | src/app/page.tsx:59-61 | Top Read is ordered most read first |
| Home.TopReadFromPosts | src/app/page.tsx:59-61 | every Top Read post is a fetched post, none repeated beyond its occurrences |
| Home.TopReadIsTop | src/app/page.tsx:59-61 | no post left out of Top Read has more views than a post in it |
| Home.ShowTopRead | src/app/page.tsx:79 | the section shows when Top Read is non-empty and some post has been read; ShowTopReadIffLeaderViewed states its meaning |
| Home.ShowTopReadIffLeaderViewed | src/app/page.tsx:79 | the section shows iff its first post has been read at least once |
| Home.HomePage | src/app/page.tsx:21-79 | a missing table gives the setup notice and any other error the failure text; no posts gives the empty notice; otherwise Latest is the fetched list and Top Read is `TopRead` of it (one to three of its posts, ordered) and is shown as `ShowTopRead` says, iff the first has views |

## Left out

- Backend calls, the session lookup, `confirm` dialogs and `alert` messages are not modelled as effects. Each answer is a handler parameter, and the request the handler would send is its result.
- `router.push`, `router.refresh` and `window.location` are not modelled. A redirect to the login page is a boolean or `VoteStart` result.
- Local storage is a class field. The JSON in it is read by the caller: the stored ledger arrives as `Option<map>`, and the dismissal as the `Dismissed` datatype, which keeps the `NaN` of `parseInt` apart.
- `crypto.randomUUID` is the `secret` parameter of `HandleSubmit`, and `Date.now` is the `now` parameter of `HandleClose`.
- The popup's two-second `setTimeout` is collapsed: `Load` opens the popup at once.
- Comments.CommentSection.HandleSubmit, Comments.CommentSection.HandleDelete, Moderation.CommentList.HandleApprove, Moderation.CommentList.HandleDelete: each handler is modelled as one atomic step. The source builds each new list (and the new ledger) from the `comments`/`myComments` it captured when the handler started, before its `await` (CommentSection.tsx:130, 133 and 160; CommentList.tsx:37 and 50). So an update that completes while another handler awaits is overwritten when that handler finishes. For example, a delete that lands during a pending insert comes back, and of two quick Approve clicks on different rows only the last flip survives. The model does not capture these interleavings.
- Comments.CommentSection.HandleSubmit: `isSubmitting` is set and cleared within one call, so the model cannot observe the disabled submit button while an insert is in flight.
- Editor.PostEditor.HandleSubmit: the publish date (`publishDate`, `toLocalISO`, the `created_at` field) depends on the clock and time zone and is not modelled. The unused `published` state, the options panel, the rich-text editor, and `handlePreview` (which opens a window) are not modelled either.
- Editor.PostEditor.HandleSubmit: `loading` (lines 46 and 76) is set and cleared within the one call, so the disabled "Publishing..." button during a pending save (lines 121-125) is not observable in the model.
- PostsTable.AdminPostsTable.BulkDelete: the selected ids are sent as a set, so the order `Array.from` gives them is not modelled. The same holds for BulkStatusChange.
- PostsTable.AdminPostsTable.BulkStatusChange: `loading` is set and cleared within one call, as in BulkDelete, so the model cannot observe the disabled buttons while a bulk request is in flight.
- Polls.Percentage: `Math.round` on a floating-point quotient is modelled as exact integer rounding, halves up. Float rounding error near a half is not modelled.
- Polls.TotalVotes: this is a ghost function (the sum over a map), so the percentages in the lemmas use it but no compiled code computes it.
- Home.SortByViews: the model is an insertion sort that keeps earlier posts ahead of later ties. The tie order of `Array.prototype.sort` is not stated by any contract.
- Ascii: case mapping, `trim` and `includes` are restricted to ASCII, and `split` to a one-character separator. Unicode case folding and white space are not modelled.
- Identity: the menu's open/close toggle, the avatar image and the sign-out call are not modelled. Neither are CommentSection's `menuRef`/`showMenu` pop-up menu and the marquee and other presentational components.
- Comments.Initials: the duplicate `getInitials` in `CommentItem` (lines 303-310) is the same function and is not modelled separately.
