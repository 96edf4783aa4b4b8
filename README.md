# NotionNotes store logic in Dafny

This project models the data logic of the NotionNotes PHP application
(`index.php`): the account store (login, registration, notification
preference) and the note store (listing, point lookup, create, edit, soft
delete, favourite and pin toggles, search), plus the start-up step that seeds
an `admin` account with a welcome note.

In the application every operation loads a whole JSON file, scans or edits
the decoded array, and writes the whole file back. The model keeps the
decoded array as a field of a class: `Accounts.AccountStore.users` and
`Notes.NoteStore.notes`, both of type `seq`. Each store operation is a method
with the loop the PHP function has, and it is proved against a
specification function:

- `Notes.ChangeFirst` gives the collection after the loop of `updateNote`,
  `deleteNote`, `toggleFavorite` and `togglePin`. That loop changes the first
  matching note in place and stops.
- `Notes.UserNotes` gives what `getAllNotes` collects.
- `Seqs.Filter` gives what `searchNotes` keeps.
- `Accounts.WithNotifications` gives the users after `updateUserSettings`.

The lemmas state what those functions mean: the frame of each edit, that
toggling twice restores the flag, that a soft delete hides a note, which
note leads the listing after a change, that search keeps the listing order,
and that registration keeps emails distinct.

Files:

- `options.dfy` (module `Options`): `Option`, the answer of a lookup that can find nothing.
- `seqs.dfy` (module `Seqs`): `Filter` (the accumulation loop's result),
  subsequences and descending order.
- `text.dfy` (module `Text`): ASCII `strtolower` and `stripos`.
- `notes.dfy` (module `Notes`): note records, the note store and its lemmas.
- `accounts.dfy` (module `Accounts`): user records, the account store and its lemmas.
- `seeding.dfy` (module `Seeding`): creating the default user and the welcome note.

Environment inputs are parameters:

- `now` is the integer `strtotime` would give for the `date('Y-m-d H:i:s')`
  string the code stores. Timestamps are modelled as these integers.
- `freshId` stands for `uniqid()`.
- `passwordHash` stands for the result of `password_hash(...)`, which is salted and random.
- `verify` stands for `password_verify`.

How the model follows the code:

- `updateNote`, `deleteNote`, `toggleFavorite` and `togglePin` match on id
  and owner only. A soft-deleted note can still be edited, toggled or
  deleted again (`Notes.Matches`).
- `deleteNote` sets `deleted_at` and leaves `updated_at` as it was.
- `createNote`'s category defaults to `"general"` only when the argument is
  omitted. This is a Dafny default parameter. The request handler always
  passes the posted category, so an empty category is stored as given.
- `getAllNotes` sorts by `updated_at` alone. Pinned notes are not put first.
- `stripos` with an empty needle finds it at position 0, as in PHP 8. So
  the empty search query matches every listed note
  (`Notes.EmptyQueryKeepsAll`).
- `login` keeps scanning after a wrong password. It does not say whether
  the email or the password failed.

## Model

| member | source | states |
|---|---|---|
| `Notes.NoteStore.GetAllNotes` | index.php:183-199 | the result holds exactly the stored notes owned by the user with empty `deleted_at`, each as often as stored, ordered by `updated_at` non-increasing |
| `Notes.ListingMembership` | index.php:187-191 | a note is in a listing if and only if it is stored, owned by the user and not deleted |
| `Notes.SortNewestFirst` | index.php:194-196 | the `usort` result is a permutation of its input with `updated_at` non-increasing |
| `Notes.InsertNewestFirst` | index.php:194-196 | one sort step adds exactly one element and keeps the order non-increasing |
| `Notes.NoteStore.GetNoteById` | index.php:201-209 | returns the first stored note with that id and owner whose `deleted_at` is empty; returns none exactly when no such note exists, so another owner's note is never returned |
| `Notes.NewNote` | index.php:214-227 | the new note is live and owned by the given user; it carries the given id, title, content and category; it is neither favourite nor pinned, is white and untagged, and was created and updated at `now` |
| `Notes.IsImportant` | index.php:233 | a note is important exactly when its lower-cased category is "work" or "important", or "urgent" occurs somewhere in its lower-cased title |
| `Notes.NoteStore.CreateNote` | index.php:211-250 | appends exactly one note and leaves the earlier ones unchanged; the new note has the given id, owner, title, content and category, both flags false, no `deleted_at`, and `created_at == updated_at == now`; returns its id and whether the importance rule holds |
| `Notes.Matches` | index.php:257 | the id/owner test reads only fields that no change alters, so a change never makes a note start or stop matching |
| `Notes.Retrievable` | index.php:204 | `getNoteById` accepts a note exactly when it has the id and `getAllNotes` would list it for that user |
| `Notes.FirstMatch` | index.php:256-264 | the position of the first note matching id and owner, or the length when none matches |
| `Notes.Apply` | index.php:256-338 | each change keeps id, owner, creation time, colour and tags; every change except the soft delete sets `updated_at` to now and keeps `deleted_at`; the soft delete sets `deleted_at` to now and keeps `updated_at` |
| `Notes.ChangeFirst` | index.php:256-264 | length unchanged; a note that changes is the first id/owner match and receives the change; that first match does receive it; if nothing matches, nothing changes |
| `Notes.NoteStore.ChangeFirstMatch` | index.php:256-264 | the in-place loop leaves the collection equal to `ChangeFirst` of the old one |
| `Notes.NoteStore.UpdateNote` | index.php:253-268 | only title, content, category and `updated_at` of the first id/owner match change, deleted or not; always returns true |
| `Notes.NoteStore.DeleteNote` | index.php:270-299 | length unchanged; only `deleted_at` of the first id/owner match is set to now; always returns true |
| `Notes.NoteStore.ToggleFavorite` | index.php:314-327 | negates `is_favorite` and sets `updated_at` on the first id/owner match only; always returns true |
| `Notes.NoteStore.TogglePin` | index.php:329-342 | negates `is_pinned` and sets `updated_at` on the first id/owner match only; always returns true |
| `Notes.FirstMatchUnchanged` | index.php:256-264 | applying a change does not move the first id/owner match |
| `Notes.ToggleTwiceRestores` | index.php:314-342 | toggling the same flag twice gives back every note, except that the first match has the second toggle's `updated_at` |
| `Notes.SoftDeleteHides` | index.php:270-275 | with unique ids, after a delete no stored note with that id and owner is live, and the listing holds no note with that id |
| `Notes.ChangedNoteListedFirst` | index.php:183-199 | an edit or toggle made later than every listed note's `updated_at`, on a live note, puts that note first in every listing |
| `Notes.CreatedNoteListedFirst` | index.php:211-230 | a note created later than every listed note's `updated_at` comes first in every listing |
| `Notes.NoteStore.SearchNotes` | index.php:301-312 | the result is the filter of a `getAllNotes` listing by "title or content contains the query, ignoring case"; a note is a result if and only if it is a live note of the user matching the query; results are newest first |
| `Notes.KeepMatching` | index.php:305-309 | the loop keeps exactly the notes whose title or content contains the query, in order |
| `Notes.SearchKeepsListingOrder` | index.php:301-312 | search results are a subsequence of the listing and so newest first; a note is a result if and only if it is a live note of the user that matches the query |
| `Notes.QueryHitMeaning` | index.php:306 | a note is a search hit exactly when the lower-cased query occurs in its lower-cased title or in its lower-cased content |
| `Notes.EmptyQueryKeepsAll` | index.php:306 | the empty query keeps the whole listing |
| `Notes.ImportanceIgnoresCase` | index.php:233 | the importance rule gives the same answer after lower-casing category and title |
| `Text.Lower` | index.php:233 | `strtolower` keeps the length and lower-cases each ASCII letter, leaving other characters alone |
| `Text.IndexFrom` | index.php:306 | the first position at or after the start where the needle occurs; none exactly when it occurs nowhere after the start |
| `Text.Stripos` | index.php:306 | the result is the first position at which the lower-cased needle occurs in the lower-cased haystack, and none exactly when it occurs nowhere |
| `Text.ContainsIgnoringCaseMeaning` | index.php:306 | `stripos(...) !== false` holds exactly when the lower-cased needle occurs in the lower-cased haystack |
| `Text.EmptyNeedleAlwaysFound` | index.php:306 | `stripos` finds the empty needle at position 0 |
| `Text.StriposIgnoresCase` | index.php:233 | lower-casing either argument first does not change `stripos` |
| `Seqs.Filter` | index.php:187-191 | the accumulation loop's result is no longer than its input and holds exactly the input elements that pass the test |
| `Seqs.FilterCounts` | index.php:187-191 | each passing element is kept as often as it occurs, and nothing else is kept |
| `Seqs.FilterIsSubsequence` | index.php:305-309 | the kept elements stay in their original order |
| `Seqs.SubsequenceKeepsSortedDesc` | index.php:301-312 | a subsequence of a descending sequence is descending |
| `Accounts.AccountStore.Login` | index.php:122-139 | returns the first user whose email equals the given one exactly and whose hash verifies the password; returns none exactly when no user passes both tests; when emails are distinct, the returned user is the only one with that email |
| `Accounts.AccountStore.Register` | index.php:141-174 | succeeds if and only if no stored user has exactly that email; on success appends one user with notifications on; on failure leaves the users unchanged; keeps emails distinct |
| `Accounts.NewUser` | index.php:151-158 | the new user has the given id, username, email and hash, was created at `now`, and has notifications switched on |
| `Accounts.RegisterKeepsEmailsDistinct` | index.php:144-160 | appending a user whose email is free keeps all emails pairwise distinct |
| `Accounts.AcceptedUserIsTheEmailOwner` | index.php:124-125 | with distinct emails, the user `login` accepts is the only user with that email |
| `Accounts.FirstWithId` | index.php:346-351 | the position of the first user with that id, or the length when there is none |
| `Accounts.WithNotifications` | index.php:344-354 | only the first user with that id gets the new notification flag; every other user and every other field is unchanged |
| `Accounts.AccountStore.UpdateUserSettings` | index.php:344-354 | the users become `WithNotifications` of the old users; always returns true; keeps emails distinct |
| `Accounts.SettingsKeepEmailsDistinct` | index.php:344-354 | changing a preference keeps emails distinct |
| `Seeding.AdminUser` | index.php:363-370 | the seeded account is the record registration would create for id and username `admin` with email admin@example.com, notifications on |
| `Seeding.SeedDefaultUser` | index.php:360-379 | with no users, creates exactly the admin account and appends the welcome note in "general"; otherwise changes nothing |
| `Seeding.WelcomeNoteIsNotImportant` | index.php:375-378 | the welcome note does not meet the importance rule, so seeding sends no importance mail |

## Left out

- File persistence: `getUsers`, `saveUsers`, `getNotes`, `saveNotes`, `getSettings`, `saveSettings`, JSON encoding and decoding, and the creation of the data directory and files (index.php:19-63). This is I/O; the decoded arrays are the `users` and `notes` fields.
- Email: `sendEmailNotification`, `mail()` and the notification branches of `login`, `register`, `createNote` and `deleteNote`. These are side effects only. `CreateNote` reports whether the importance rule at index.php:233 holds; the user lookup and the sending are not modelled.
- Sessions, `isLoggedIn`, `logout`, the request dispatch and the redirects (index.php:118-120, 176-180, 381-510). This is web plumbing. `Login` returns the accepted user, whose fields the code copies into the session. `Register`'s automatic login is not modelled.
- HTML rendering: `displayLoginPage` and the empty `displayDashboard`, `displayEditNote` and `displaySettingsPage` (index.php:512-764).
- `password_hash`, `password_verify`, `uniqid()`, `date()` and `strtotime()` internals. They are parameters.
- Concurrency: the lost update between two requests that rewrite the same file. The code has no locking.
- Unicode case folding: `strtolower` and `stripos` fold ASCII letters only here.
- `createNote` calls `date()` twice. The model uses one `now` for both `created_at` and `updated_at`, so it does not model the two calls landing in different seconds.
- Seeding.SeedDefaultUser: uses one `now` for the admin's `created_at` (index.php:368) and for the welcome note's two timestamps (index.php:224-225). It does not model these three `date()` calls landing in different seconds.
- The `usort` algorithm: `SortNewestFirst` is an insertion sort that stands in for it. Only the resulting order is stated.
- Notes.NoteStore.GetAllNotes: does not state the order of notes with equal `updated_at`, because `usort` is stable only from PHP 8.0 on.
- Notes.NoteStore.SearchNotes: inherits the unspecified order of ties from the listing it filters.
- `updateUserSettings` reads only the `email_notifications` entry of its settings array. The model takes that flag as a boolean parameter.
