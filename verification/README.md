# Reviews and series history: a Dafny model

This project models the logic of two React components of a video site.

- **Reviews** (`src/components/Video_Section/Reviews.tsx`). This component keeps the reviews of one video in sync with a Firestore document. On every snapshot, each key of the document is decoded into a review record. Each entry's author avatar is looked up in Cloud Storage, once per entry. Entries whose lookup fails are dropped, and the rest are sorted newest first. The result replaces `reviewData`. The view shows a window of the first 10 rows, or of all rows. A row written by the signed-in user offers a "more" menu while it is not being edited. Only the signed-in user's own rows have an Edit button, inside that menu; the row being edited shows an editor in place of its text. At most one menu and one editor are open at a time.
- **SeriesHistory** (`src/components/History_Page/SeriesHistory.tsx`). This component shows the series ids stored under the user's history or library. The category comes from the URL path. Details for every id are fetched with `Promise.all`. The delete button writes the id list without the first occurrence of the clicked id.

The model is functional: immutable sequences and maps, and pure functions. Cloud Storage and the TMDB fetch are oracle parameters whose calls resolve or reject (`Promises.Settled`). The time-zone conversion is a plain function parameter `parse` that always returns an instant. Writes to the database are returned as values (`ReviewWrite`, `SeriesWrite`) instead of being performed.

Modules, one per file:

| file | module | models |
|---|---|---|
| `wrappers.dfy` | `Wrappers` | `Option`, for JavaScript `null`/`undefined` |
| `promises.dfy` | `Promises` | settled promises and `Promise.all` |
| `descending_sort.dfy` | `DescendingSort` | stable sort into non-increasing key order, with its characterisation |
| `review_decode.dfy` | `ReviewDecode` | Firestore field values, the avatar lookup, decoding of one entry |
| `review_list.dfy` | `ReviewList` | the snapshot listener: decode all, `filter(Boolean)`, sort, publish |
| `review_view.dfy` | `ReviewView` | the `visible` window, the menu/edit toggles, Save/Cancel, row controls |
| `seq_remove.dfy` | `SeqRemove` | `indexOf` plus `splice(i, 1)` on a copy, and a reference "remove first" |
| `pathname.dfy` | `Pathname` | `split("/")`, `join("/")`, indexed path segment |
| `series_history.dfy` | `SeriesHistory` | category from the path, details join, `handleDelete`, heading |

Modelling choices:

- A Firestore field is modelled by the three properties the component destructures from it: `timestampValue`, `stringValue` and `booleanValue`. A property the field does not carry reads as `undefined`. The destructuring throws only when one of the five fields is missing, or when the entry has no field map. That throw happens outside the `try`, so `Promise.all` rejects and `reviewData` keeps its previous value.
- The sort key follows JavaScript subtraction: a `Date` subtracts as its millisecond value, and `null` coerces to 0. A review with no creation time therefore sorts as if it were posted at the epoch. It is not placed after all dated reviews.
- The storage oracle is a function of the folder path. Within one snapshot, two reviews by the same author therefore get the same lookup outcome.
- Each snapshot is decoded from scratch and replaces the list: nothing is merged with the previous list, and no avatar URL is cached between snapshots. One malformed entry discards the whole snapshot, and the previous list stays.
- Records with equal creation times are published in the order of their keys in the document, because the kept records follow key order and the sort is stable.

## Model

| member | source | states |
|---|---|---|
| `Promises.All` | src/components/History_Page/SeriesHistory.tsx:43-51 | `Promise.all` resolves exactly when every input resolves, with the values in input order; otherwise it rejects |
| `ReviewDecode.AvatarUrl` | src/components/Video_Section/Reviews.tsx:47-53 | the lookup is `null` exactly when the listing resolves empty, and is a URL exactly when the listing has a first item whose download URL resolves to it; every other case rejects |
| `ReviewDecode.DecodeEntry` | src/components/Video_Section/Reviews.tsx:36-70 | an entry rejects exactly when one of the five fields is missing; it is dropped (`null`) exactly when its avatar lookup rejects; otherwise its record has `reviewId` equal to the key, copies `id`, `username`, `review` and `isEdited`, has a null `createdAt` exactly when the raw timestamp is null, and carries the avatar lookup's URL |
| `ReviewDecode.Destructurable` | src/components/Video_Section/Reviews.tsx:38-45 | destructuring an entry succeeds exactly when it has a field map holding `createdAt`, `id`, `review`, `username` and `isEdited`; when it fails, the map is missing or one of those five names is absent |
| `ReviewList.CreatedKey` | src/components/Video_Section/Reviews.tsx:75 | the value a record contributes to `b.createdAt - a.createdAt`: 0 for a null creation time, otherwise the instant itself |
| `ReviewList.Present` | src/components/Video_Section/Reviews.tsx:74 | `filter(Boolean)` keeps exactly the non-null values and is never longer than its input |
| `ReviewList.PresentAppend` | src/components/Video_Section/Reviews.tsx:74 | filtering a concatenation gives the concatenation of the filtered parts, so each kept value appears once per non-null position |
| `ReviewList.PresentAt` | src/components/Video_Section/Reviews.tsx:74 | a non-null value is placed right after the filtered values before it and right before the filtered values after it |
| `ReviewList.PresentKeepsOrder` | src/components/Video_Section/Reviews.tsx:74 | of two non-null values, the earlier one comes first in the filtered list |
| `ReviewList.Decode` | src/components/Video_Section/Reviews.tsx:35-74 | decoding a snapshot rejects exactly when the document has no fields or some entry cannot be destructured; otherwise the kept records are exactly those that some entry decoded to, each kept record appears once when the document's keys are distinct, and when entries i < j are both kept, entry i's record comes before entry j's (`Object.keys` order) |
| `ReviewList.OnSnapshot` | src/components/Video_Section/Reviews.tsx:34-77 | when decoding rejects, `reviewData` keeps its previous value; otherwise the published list is a permutation of the kept records, sorted non-increasing by creation time (null as 0), and each creation time's group of records is in the same order as in the kept list |
| `ReviewList.OnSnapshotTiesKeepKeyOrder` | src/components/Video_Section/Reviews.tsx:36-75 | when a revision decodes and two kept entries have equal creation times, the record of the earlier key is published before the record of the later key |
| `ReviewList.OnSnapshotIsTheStableOrder` | src/components/Video_Section/Reviews.tsx:75 | any list that is sorted by the comparator and stable on the kept records equals the published list, so the result does not depend on the engine's sort algorithm |
| `ReviewList.OnSnapshotKeepsIdsUnique` | src/components/Video_Section/Reviews.tsx:36-76 | if the previous list has distinct review ids and the document's keys are distinct, the published list has distinct review ids |
| `ReviewList.SurvivesIffAvatarResolves` | src/components/Video_Section/Reviews.tsx:48-74 | when a snapshot decodes, an entry's key is among the published ids exactly when its own avatar lookup resolved, so a failed lookup drops that entry and no other |
| `DescendingSort.Sort` | src/components/Video_Section/Reviews.tsx:75 | the sorted list is a permutation of the input, ordered non-increasing by key |
| `DescendingSort.SortStable` | src/components/Video_Section/Reviews.tsx:75 | for every key, the elements with that key appear in the sorted list in their input order |
| `DescendingSort.SortCharacterized` | src/components/Video_Section/Reviews.tsx:75 | a list equals the sort of the input exactly when it is sorted and has the input's per-key subsequences (both directions) |
| `DescendingSort.WithKeyKeepsBefore` | src/components/Video_Section/Reviews.tsx:75 | two elements with the same key keep their relative order in that key's group |
| `DescendingSort.WithKeyBeforeBack` | src/components/Video_Section/Reviews.tsx:75 | two elements that are in order within a key group are in the same order in the whole list |
| `DescendingSort.SortDistinct` | src/components/Video_Section/Reviews.tsx:75 | sorting does not make two elements agree on a projection (such as the review id) on which no two agreed before |
| `ReviewView.ToggleLoadComments` | src/components/Video_Section/Reviews.tsx:99-105 | toggling yields `Infinity` exactly when the state was not `Infinity`, and 10 otherwise |
| `ReviewView.ToggleTwice` | src/components/Video_Section/Reviews.tsx:99-105 | toggling twice restores the state exactly when it was 10 or `Infinity`, and in particular from the initial 10 |
| `ReviewView.Window` | src/components/Video_Section/Reviews.tsx:156 | the window is a prefix of the list, of length `min(visible, length)`, or the whole list when `visible` is `Infinity` |
| `ReviewView.WindowStates` | src/components/Video_Section/Reviews.tsx:14 | the initial window holds the first `min(10, length)` rows, the window after one toggle holds all rows, and the window after two toggles equals the initial one |
| `ReviewView.ToggleId` | src/components/Video_Section/Reviews.tsx:219-221 | the updater `prev === id ? null : id` gives `id` exactly when `prev` was not `id`, and `null` exactly when it was |
| `ReviewView.ToggleIdTwice` | src/components/Video_Section/Reviews.tsx:218-222 | toggling the same id twice restores the previous state exactly when it was `null` or that id |
| `ReviewView.ClickMore` | src/components/Video_Section/Reviews.tsx:218-222 | clicking "more" opens the row's menu exactly when it was not the open one, else closes it; the edit state and text do not change |
| `ReviewView.ClickEdit` | src/components/Video_Section/Reviews.tsx:230-234 | clicking "Edit" makes the row the edited one exactly when it was not, else stops editing; the open menu and text do not change |
| `ReviewView.TypeEdit` | src/components/Video_Section/Reviews.tsx:188 | typing replaces the edit text and changes nothing else |
| `ReviewView.Save` | src/components/Video_Section/Reviews.tsx:87-92 | Save issues `updateReview` with the row's id, the document id and the typed text, then resets the menu, the editor and the text |
| `ReviewView.Cancel` | src/components/Video_Section/Reviews.tsx:204-206 | Cancel resets the menu, the editor and the text |
| `ReviewView.EditorText` | src/components/Video_Section/Reviews.tsx:187 | the editor shows the stored review until something is typed, then the typed text |
| `ReviewView.SaveUntypedSendsEmpty` | src/components/Video_Section/Reviews.tsx:87-92 | opening the editor and saving without typing sends an empty text, although the editor showed the stored review |
| `ReviewView.Row` | src/components/Video_Section/Reviews.tsx:169-227 | a row shows the editor exactly when it is the edited one; it offers the menu exactly when the signed-in user wrote the review and it is not being edited; its menu is open exactly when it is offered and is the open one |
| `ReviewView.AtMostOneOpen` | src/components/Video_Section/Reviews.tsx:215-227 | in a list with distinct ids, at most one row shows the editor, at most one row has an open menu, and no row has both |
| `SeqRemove.IndexOf` | src/components/History_Page/SeriesHistory.tsx:57 | `indexOf` is -1 exactly when the value is absent; otherwise it is the lowest index holding the value |
| `SeqRemove.Splice` | src/components/History_Page/SeriesHistory.tsx:59 | `splice(i, 1)` on a copy gives a list one shorter, equal to the original before `i` and shifted by one after it |
| `SeqRemove.SpliceIndexOfIsRemoveFirst` | src/components/History_Page/SeriesHistory.tsx:57-59 | splicing out the index `indexOf` finds equals the reference removal of the first occurrence |
| `SeqRemove.RemoveFirstMultiset` | src/components/History_Page/SeriesHistory.tsx:57-59 | removing the first occurrence takes exactly one copy of the value out of the list's multiset |
| `SeriesHistory.HandleDelete` | src/components/History_Page/SeriesHistory.tsx:54-62 | no write is issued exactly when the id is absent; otherwise it writes, for the user and category, the list one element shorter, with the first occurrence removed and the rest in order |
| `SeriesHistory.DeleteRemovesFirstOccurrence` | src/components/History_Page/SeriesHistory.tsx:55-60 | the written list equals "remove first occurrence" and has the original's multiset minus one copy of the id |
| `SeriesHistory.DeleteKeepsLaterCopies` | src/components/History_Page/SeriesHistory.tsx:57-59 | when the id occurs at least twice, a write is issued and the id is still in the written list |
| `SeriesHistory.DeleteFromUniqueList` | src/components/History_Page/SeriesHistory.tsx:57-59 | on a list without repeats, the written list no longer contains the id and has no repeats |
| `SeriesHistory.OnSeriesIds` | src/components/History_Page/SeriesHistory.tsx:27-52 | when every fetch resolves, the details have the ids' length and position i holds the response for id i; when any fetch rejects, the previous details stay |
| `SeriesHistory.ShowsHeading` | src/components/History_Page/SeriesHistory.tsx:66 | the "Series" heading is shown exactly when the id list is non-empty |
| `SeriesHistory.Location` | src/components/History_Page/SeriesHistory.tsx:19 | the category is undefined exactly when the path has fewer than two slashes; otherwise it is a slash-free segment |
| `SeriesHistory.LocationOfSegments` | src/components/History_Page/SeriesHistory.tsx:19 | for a path joined from slash-free segments, the category is the segment at index 2, or undefined when there are at most two segments |
| `SeriesHistory.LocationOfShape` | src/components/History_Page/SeriesHistory.tsx:19 | a path `a/b/c` followed by nothing or by `/...`, with `a`, `b` and `c` slash-free, has category `c` |
| `SeriesHistory.LocationOfPath` | src/components/History_Page/SeriesHistory.tsx:19 | the category is `c` exactly when the path is `a/b/c`, possibly followed by `/...`, with `a`, `b` and `c` slash-free (both directions) |
| `Pathname.Split` | src/components/History_Page/SeriesHistory.tsx:19 | `split("/")` gives one more segment than there are slashes, and no segment contains a slash |
| `Pathname.JoinSplit` | src/components/History_Page/SeriesHistory.tsx:19 | joining the segments of a path with "/" gives back the path |
| `Pathname.SplitJoin` | src/components/History_Page/SeriesHistory.tsx:19 | splitting slash-free segments joined with "/" gives back the segments |
| `Pathname.Segment` | src/components/History_Page/SeriesHistory.tsx:19 | segment i is undefined exactly when the path has fewer than i slashes, and is otherwise slash-free |

## Left out

- Firebase I/O is not modelled: `onSnapshot`, `listAll`, `getDownloadURL`, and the database writes `addReview`, `updateReview`, `deleteReview` and `updateHistoryOrLibrary`. Lookups are oracle parameters, and the two writes the model covers are returned as values.
- `handleSubmit` and the review `handleDelete` (Reviews.tsx:80-85, 94-97) are not modelled. They only forward to database writes, clear the input box and flip `isSubmitted` to re-subscribe.
- The effect that loads the signed-in user's own avatar (Reviews.tsx:23-30) is not modelled. It is storage I/O for the input box.
- The time-zone conversion `moment.tz(createdAt, "Asia/Singapore")` is the oracle `parse`, from a non-null raw value to an integer instant. `fromNow` is presentation and is not modelled.
- ReviewDecode.DecodeEntry: `parse` returns an integer for every non-null raw value. A raw value that moment cannot read becomes an invalid `Date`, whose `NaN` makes the comparator inconsistent. That case is not modelled.
- ReviewDecode.DecodeEntry: a `createdAt` field without a `timestampValue` gives `undefined`, and `moment.tz(undefined, ...)` reads the clock once per entry, after that entry's own avatar lookups have finished. The model folds every such read into the single value `parse(Undefined)`. Such entries therefore tie and are published in key order, whereas in the running system they are ordered by when each entry's lookups completed.
- SeriesHistory.OnSeriesIds: one run of the details effect is modelled in isolation. The effect returns no cleanup, so when `seriesIds` changes twice the earlier `Promise.all` can settle last and install the details of a stale id list (for instance one still holding a series `handleDelete` just removed). That interleaving is not modelled.
- SeriesHistory.OnSeriesIds: the TMDB fetch is a function of the id. Equal ids in one list therefore get the same outcome, whereas in the running system each request could fail or answer independently.
- ReviewDecode.AvatarUrl: the storage lookup is a function of the folder path. Two lookups of the same folder in one snapshot therefore settle the same way, whereas in the running system each call could fail independently.
- The subscription lifecycle is not modelled: unsubscribe handles that are never called, effect dependency arrays, and the ordering of overlapping snapshot callbacks. These are concurrency concerns.
- The series-id subscription (SeriesHistory.tsx:21-25) is not modelled. It only copies `doc.data()?.[location].series` into state. The id list is a parameter of every modelled operation.
- The rating `vote_average.toFixed(1)` (SeriesHistory.tsx:80) is floating-point formatting and is not modelled.
- `src/pages/Watch_Video.tsx` and `src/pages/Home.tsx` are not modelled. They contain URL-parameter reading, a delayed history write and an `addUser` side effect.
- JSX and CSS markup, and the commented-out YouTube comments block, are not modelled.
