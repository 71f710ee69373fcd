# Bookmark list reconciliation, modelled in Dafny

The bookmark manager keeps, in each browser tab, a local copy of the signed-in
user's bookmarks. The list component fills it from one snapshot read, then
follows the record store's realtime INSERT and DELETE notifications. This
project models that list as a pure reducer over `(bookmarks, loading)`. It
also models the two small decision cores beside it: the add-bookmark form's
submit handler, and the bookmark card's domain display and delete button.

Modules, one per source file plus three shared ones:

- `Wrappers` (`wrappers.dfy`): `Option`, for `null`, absent values and throws.
- `JsStrings` (`js_strings.dfy`): the JavaScript string operations the
  components use. These are `trim` (with the ECMA-262 WhiteSpace and
  LineTerminator set), `indexOf`, `replace` with a string pattern, and
  decimal rendering of a count.
- `Bookmarks` (`bookmarks.dfy`): the `Bookmark` row, id-keyed queries over a
  list, and the `bookmarks-sync-<owner>` broadcast messages.
- `BookmarkList` (`bookmark_list.dfy`): the snapshot handler, the INSERT and
  DELETE callbacks, event sequences, the feed registrations and the render
  branch.
- `AddBookmarkForm` (`add_bookmark_form.dfy`): `handleSubmit` in two halves.
  The first is the synchronous validation up to the insert. The second is
  the update once the insert settles.
- `BookmarkCard` (`bookmark_card.dfy`): `getDomain`, the `deleting` flag and
  what a delete click sends.

Foreign calls are parameters or plain inputs. `new URL(u)` succeeding is
`isValidUrl: string -> bool`. `new URL(u).hostname` is
`hostnameOf: string -> Option<string>`, where `None` stands for a throw. The
snapshot response, the insert outcome, whether the card's delete rejects and
the realtime events are inputs.

The code is simpler than a fully reconciling replica. In particular:

- The reducer has no owner check. Only the INSERT registration carries the
  filter `user_id=eq.<owner>`. DELETE notifications for every owner reach
  the list and remove by id alone.
- There are no update events and no listener for the broadcast topic. The
  form and the card send on that topic, but nothing here subscribes to it.
- Events are not queued while loading. A successful snapshot replaces the
  list wholesale, so an insert that arrives before it is lost unless the
  snapshot itself contains the row.
- A failed snapshot keeps the current list; it does not clear it.
- An insert is always prepended. It is not placed by creation time.
- There is no generation token. The effect's cleanup only removes the
  channel.

## Model

| member | source | states |
|---|---|---|
| `JsStrings.Trim` | src/components/AddBookmarkForm.tsx:24 | `trim` returns the middle of the input with whitespace removed at both ends. The result is empty exactly when the input is all whitespace, which is when `!s.trim()` holds. |
| `JsStrings.TrimIdempotent` | src/components/AddBookmarkForm.tsx:42-43 | Trimming the already trimmed title or url changes nothing. |
| `JsStrings.IndexOf` | src/components/BookmarkCard.tsx:36 | Finds the first index where the pattern occurs, with no occurrence before it, or reports that it occurs nowhere. |
| `JsStrings.RemoveFirst` | src/components/BookmarkCard.tsx:36 | `replace` with a string pattern: unchanged when the pattern is absent; otherwise shorter by exactly the pattern's length. |
| `JsStrings.IndexOfIsFirstOccurrence` | src/components/BookmarkCard.tsx:36 | An occurrence with none before it is the one `indexOf` finds, and the one `replace` removes. |
| `JsStrings.RemoveFirstInverse` | src/components/BookmarkCard.tsx:36 | Putting the pattern back at its first occurrence rebuilds the input, so only that one occurrence was removed. |
| `JsStrings.NatToString` | src/components/BookmarkList.tsx:169 | A count renders as a non-empty string of decimal digits with no leading zero; zero renders as `0` alone. |
| `JsStrings.DecimalRoundTrip` | src/components/BookmarkList.tsx:169 | The rendered digits read back as the count. |
| `Bookmarks.CountIdPositive` | src/components/BookmarkList.tsx:49 | An id occurs a positive number of times exactly when `some(b => b.id === id)` holds. |
| `Bookmarks.UniqueCountAtMostOne` | src/components/BookmarkList.tsx:171-173 | In a list with unique ids (needed by `key={bookmark.id}`), each id occurs at most once, and exactly once when present. |
| `Bookmarks.TopicRoundTrip` | src/components/AddBookmarkForm.tsx:56 | The topic `bookmarks-sync-<owner>` determines its owner and is determined by it. |
| `Bookmarks.SyncTopicInjective` | src/components/BookmarkCard.tsx:19 | Two owners never share a sync topic. |
| `Bookmarks.AddedMessage` | src/components/AddBookmarkForm.tsx:56-60 | The add broadcast goes to the owner's topic with event `bookmark-added` and carries the inserted row. |
| `Bookmarks.DeletedMessage` | src/components/BookmarkCard.tsx:19-23 | The delete broadcast goes to the row owner's topic with event `bookmark-deleted` and carries only the id. |
| `BookmarkList.ApplySnapshot` | src/components/BookmarkList.tsx:26-29 | Loading ends whatever the response. When there is no error and the data is non-null (an empty array counts), the list becomes the fetched rows. Otherwise the list is kept. |
| `BookmarkList.InsertIfAbsent` | src/components/BookmarkList.tsx:47-50 | After an insert the id is always present. An id already present leaves the list unchanged. A fresh row goes first, the list grows by one, and the old list follows in its old order. |
| `BookmarkList.RemoveId` | src/components/BookmarkList.tsx:62-63 | After a delete no entry has the id. The list shrinks by the number of entries with that id. Every other entry is kept, nothing new appears, and the order is kept (a subsequence). |
| `BookmarkList.Step` | src/components/BookmarkList.tsx:26-29 | Only snapshot events touch `loading`, and they set it false. Insert and delete callbacks leave it alone. |
| `BookmarkList.InsertIdempotent` | src/components/BookmarkList.tsx:47-49 | The same INSERT delivered twice has the effect of delivering it once. |
| `BookmarkList.InsertKeepsUnique` | src/components/BookmarkList.tsx:47-51 | An insert keeps ids unique and leaves exactly one entry with the inserted id. |
| `BookmarkList.DeleteAbsentIsNoop` | src/components/BookmarkList.tsx:63 | Deleting an id nobody has leaves the list unchanged. |
| `BookmarkList.DeleteIdempotent` | src/components/BookmarkList.tsx:63 | Deleting the same id twice equals deleting it once. |
| `BookmarkList.DeleteThenInsert` | src/components/BookmarkList.tsx:49-50 | A delete followed by an insert of that id always prepends the row: an early delete never blocks a later insert. |
| `BookmarkList.DeleteKeepsUnique` | src/components/BookmarkList.tsx:63 | A delete keeps ids unique. |
| `BookmarkList.DeleteRemovesOnlyThatEntry` | src/components/BookmarkList.tsx:63 | With unique ids, deleting the id at position i equals cutting out position i. |
| `BookmarkList.RunAppend` | src/components/BookmarkList.tsx:45-63 | Running two event sequences one after the other equals running them joined. |
| `BookmarkList.LoadingLifecycle` | src/components/BookmarkList.tsx:14-29 | After any events, `loading` holds exactly when it held before and no snapshot event came. Success and failure end it alike, and nothing turns it back on. |
| `BookmarkList.LoadingFromMount` | src/components/BookmarkList.tsx:13-29 | From mount, the skeleton condition holds exactly until the first snapshot resolves. |
| `BookmarkList.UniqueInvariant` | src/components/BookmarkList.tsx:26-63 | If the ids start unique and every applied snapshot has unique ids, they stay unique under any event sequence. |
| `BookmarkList.RepeatedInsertsLeaveOneCopy` | src/components/BookmarkList.tsx:47-50 | From mount, however many times a row is announced and whatever other events come between, it appears at most once, provided each fetched snapshot holds every id at most once (the rows are keyed by their primary key `id`). |
| `BookmarkList.SnapshotOverwritesEarlierEvents` | src/components/BookmarkList.tsx:27 | A fetched snapshot discards everything earlier events built. The final list depends only on the snapshot rows and later events. |
| `BookmarkList.InsertBeforeSnapshotIsLost` | src/components/BookmarkList.tsx:27-50 | The race made concrete: an INSERT that lands before an empty snapshot resolves is gone afterwards. |
| `BookmarkList.FailedSnapshotFromMount` | src/components/BookmarkList.tsx:13-29 | A snapshot that errors or returns null data, applied at mount, leaves an empty list that is no longer loading. |
| `BookmarkList.OwnerFilterInjective` | src/components/BookmarkList.tsx:43 | The filter `user_id=eq.<owner>` names exactly one owner. |
| `BookmarkList.Subscriptions` | src/components/BookmarkList.tsx:35-66 | There are exactly two registrations, an INSERT one and a DELETE one, both on the `public` schema's `bookmarks` table. Exactly the INSERT registrations carry a filter, and that filter is `user_id=eq.<owner>`. |
| `BookmarkList.Deliver` | src/components/BookmarkList.tsx:45-63 | A delivered change is on the `public` schema's `bookmarks` table. A delivered INSERT reaches the callback as the new row; a delivered DELETE reaches it as the old row's id alone. |
| `BookmarkList.DeliveryScope` | src/components/BookmarkList.tsx:37-63 | A change reaches the list exactly when it is on the `public` schema's `bookmarks` table and it is a DELETE (any owner) or an INSERT of the list's own owner. A DELETE becomes a by-id removal, and an admitted INSERT becomes an insert of its row. |
| `BookmarkList.ForeignInsertIgnored` | src/components/BookmarkList.tsx:43 | Another owner's INSERT never reaches the list. |
| `BookmarkList.Render` | src/components/BookmarkList.tsx:73-180 | While loading, three placeholders show. Otherwise an empty list shows the empty state. Otherwise there is a count line and one card per entry, in list order. |
| `BookmarkList.CountLabel` | src/components/BookmarkList.tsx:169 | The digits at the start of the count line read back as the number of entries, and the words follow them. |
| `BookmarkList.CountTailPlural` | src/components/BookmarkList.tsx:169 | The words after the number are ` bookmarks saved` exactly when the number is not 1, and ` bookmark saved` exactly when it is 1. |
| `AddBookmarkForm.BeginSubmit` | src/components/AddBookmarkForm.tsx:19-47 | A submit is rejected exactly when a field is blank after trimming or the raw url fails to parse. Blank fields give the fill-in message, checked first; otherwise the invalid-URL message. A rejection keeps the fields and loading. Otherwise loading turns on, the error is cleared, and the insert carries the trimmed, non-empty title and url with the owner's id. |
| `AddBookmarkForm.FinishSubmit` | src/components/AddBookmarkForm.tsx:49-70 | Loading ends on every outcome. Success clears both fields. A returned error shows its message and a throw shows the generic message; both keep the fields. There are side effects only when a row came back. Then there is exactly one broadcast of that row on the owner's topic, followed by one `onBookmarkAdded` call with the row exactly when a callback is given. |
| `AddBookmarkForm.Submit` | src/components/AddBookmarkForm.tsx:19-71 | An insert happens exactly when both trimmed fields are non-empty and the url parses. With no insert there are no side effects and the fields are kept. A submit that reached the insert always ends with loading off. |
| `AddBookmarkForm.BlankFieldsCheckedFirst` | src/components/AddBookmarkForm.tsx:24-35 | A blank field gives the fill-in message and no insert, whatever the URL parser and the store would do. |
| `AddBookmarkForm.SuccessfulSubmit` | src/components/AddBookmarkForm.tsx:21-63 | A successful insert that returns a row ends with a blank form and the trimmed row inserted. Exactly one broadcast of that row goes out on the owner's topic. It is followed by one `onBookmarkAdded` call with the row exactly when a callback is given, and by nothing otherwise. |
| `AddBookmarkForm.FailedInsertKeepsFields` | src/components/AddBookmarkForm.tsx:49-69 | A returned error or a throw keeps the typed fields, sends nothing, ends loading and shows the matching message. |
| `BookmarkCard.GetDomain` | src/components/BookmarkCard.tsx:34-40 | Unparseable input comes back unchanged. A host name without `www.` comes back as is. A host name with `www.` comes back four characters shorter. |
| `BookmarkCard.GetDomainRestores` | src/components/BookmarkCard.tsx:36 | Putting `www.` back at its first occurrence in the shown domain gives the host name: only that occurrence was removed, wherever it was. |
| `BookmarkCard.InnerWwwRemoved` | src/components/BookmarkCard.tsx:36 | `shop.www.example.com` shows as `shop.example.com`: the removal is not limited to a prefix. |
| `BookmarkCard.OnlyFirstWwwRemoved` | src/components/BookmarkCard.tsx:36 | `www.www.example.com` shows as `www.example.com`. |
| `BookmarkCard.Mount` | src/components/BookmarkCard.tsx:11-12 | A card starts for its row with `deleting` false. |
| `BookmarkCard.ClickDelete` | src/components/BookmarkCard.tsx:15-124 | A click sets `deleting` and keeps the bookmark. On a card not yet deleting it sends the row delete by id, then, unless the awaited delete rejects, a broadcast of the id alone on the owner's topic. A rejected delete sends nothing more and leaves `deleting` set. While deleting, the disabled button sends nothing. |
| `BookmarkCard.DeletingIsMonotone` | src/components/BookmarkCard.tsx:12-16 | Once `deleting` is set, no number of clicks changes the card or sends anything. |
| `BookmarkCard.DeleteSentOnce` | src/components/BookmarkCard.tsx:12-147 | A fresh card is opaque and shows an enabled `Delete` button. However many times it is clicked, the row is deleted exactly once, and announced exactly once unless the delete rejects, in which case it is not announced at all. From the first click on, the card is dimmed and the button is disabled and reads `...`. |
| `BookmarkCard.RenderCard` | src/components/BookmarkCard.tsx:51-147 | Exactly while deleting, the whole card (its root element) is at half opacity and the button is disabled and reads `...`. Otherwise the card is fully opaque (100 percent) and the button reads `Delete`. |

## Left out

- Network and SDK calls are not modelled: the select, insert and delete
  queries, `channel().subscribe()`, `removeChannel` and broadcast `send`.
  Their results are inputs: `FetchResponse`, `InsertOutcome`, realtime
  `Change` values. Their requests are effect values: `NewRow`, `Effect`.
- The record store's filter semantics are reduced to one rule in
  `BookmarkList.Admits`: the kind, schema and table must match,
  `user_id=eq.<v>` admits rows owned by `v`, and no
  filter admits every row. Row-level security is not modelled.
- `new URL(...)` and `.hostname` are an opaque foreign parser, given as
  function parameters.
- `formatDate` is not modelled. Its locale is fixed to `en-US`, but the day
  it shows depends on the runtime's time zone.
- React effect scheduling is not modelled. Setters are applied in program
  order.
- Re-running the list's effect is not modelled. The effect depends on
  `userId` and on `supabase`. The list calls `createClient()` on every
  render without the `useMemo` the form and the card use. The model's
  reading of one snapshot followed by one continuous feed therefore assumes
  that `createClient` returns a shared client and that `userId` does not
  change. If the effect did re-run, the code would fetch and subscribe
  again. It would neither reset the list nor set `loading` again.
- `BookmarkCard.ClickDelete`: the model assumes the browser suppresses clicks
  on a disabled button. It does not model a second click that lands before
  React re-renders with `deleting` set.
- `AddBookmarkForm.FinishSubmit`: only the awaited insert is modelled as
  throwing. A throw from `onBookmarkAdded`, after the fields were cleared, is
  not modelled. Neither is a rejected `send` promise, which is not awaited.
- The form's `disabled={loading}` inputs and button, its `Adding...`
  caption and the error paragraph are not modelled. They only display the
  `loading` and `error` state that `AddBookmarkForm.BeginSubmit` and
  `AddBookmarkForm.FinishSubmit` set.
- Styles, animations, card stagger delays and the `href` of the link are
  not modelled, because they are presentation only.
- The header, pages, layout and `DashboardClient.tsx` are left out as routing
  and prop wiring. `DashboardClient.tsx` passes a `newBookmark` prop that the
  list does not declare, so there is no optimistic-insert path to model.
- `src/lib/types.ts` is not part of this model. The `Bookmark` fields follow
  the columns the components read.
