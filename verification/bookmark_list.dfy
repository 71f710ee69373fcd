/**
  The client-side replica of one user's bookmarks kept by the list
  component: an initial snapshot read, then realtime INSERT and DELETE row
  notifications, folded into `(bookmarks, loading)` one event at a time,
  and the choice of what the list renders from that state.
 */
module BookmarkList {
  import opened Wrappers
  import opened Bookmarks
  import JsStrings

  datatype ListState = ListState(bookmarks: seq<Bookmark>, loading: bool)

  /** Mount: no rows, skeleton showing. */
  const Initial: ListState := ListState([], true)

  /** The `{ data, error }` pair the snapshot select resolves to. */
  datatype FetchResponse = FetchResponse(error: Option<string>, data: Option<seq<Bookmark>>)

  /** `!error && data`: an empty array still counts as data. */
  predicate Fetched(resp: FetchResponse) {
    resp.error.None? && resp.data.Some?
  }

  /** The callbacks that change the list, in the order the event loop runs them. */
  datatype Event =
    | SnapshotResolved(response: FetchResponse)
    | RemoteInsert(row: Bookmark)
    | RemoteDelete(id: Id)

  /** The snapshot handler: a fetched result replaces the whole list,
      anything else keeps it; either way loading ends. */
  function ApplySnapshot(s: ListState, resp: FetchResponse): (r: ListState)
    ensures !r.loading
    ensures Fetched(resp) ==> r.bookmarks == resp.data.value
    ensures !Fetched(resp) ==> r.bookmarks == s.bookmarks
  {
    if Fetched(resp) then ListState(resp.data.value, false) else s.(loading := false)
  }

  /** The INSERT callback: prepend the row unless some entry already has
      its id. There is no ordering by creation time. */
  function InsertIfAbsent(bs: seq<Bookmark>, b: Bookmark): (r: seq<Bookmark>)
    ensures HasId(r, b.id)
    ensures HasId(bs, b.id) ==> r == bs
    ensures !HasId(bs, b.id) ==> |r| == |bs| + 1 && r[0] == b && r[1..] == bs
  {
    if HasId(bs, b.id) then bs
    else
      var r := [b] + bs;
      assert r[0].id == b.id;
      r
  }

  /** The DELETE callback: keep exactly the entries whose id differs, in
      their original order. */
  function RemoveId(bs: seq<Bookmark>, id: Id): (r: seq<Bookmark>)
    ensures !HasId(r, id)
    ensures |r| == |bs| - CountId(bs, id)
    ensures forall b :: b in r ==> b in bs
    ensures forall i :: 0 <= i < |bs| && bs[i].id != id ==> bs[i] in r
    ensures IsSubsequence(r, bs)
  {
    if |bs| == 0 then []
    else
      var rest := RemoveId(bs[1..], id);
      assert forall i :: 1 <= i < |bs| ==> bs[i] == bs[1..][i - 1];
      if bs[0].id == id then
        assert bs == [bs[0]] + bs[1..];
        rest
      else
        assert ([bs[0]] + rest)[1..] == rest;
        [bs[0]] + rest
  }

  /** One event applied to the state. */
  function Step(s: ListState, e: Event): (r: ListState)
    ensures e.SnapshotResolved? ==> !r.loading
    ensures !e.SnapshotResolved? ==> r.loading == s.loading
  {
    match e
    case SnapshotResolved(resp) => ApplySnapshot(s, resp)
    case RemoteInsert(b) => s.(bookmarks := InsertIfAbsent(s.bookmarks, b))
    case RemoteDelete(id) => s.(bookmarks := RemoveId(s.bookmarks, id))
  }

  /** A sequence of events applied in order. */
  function Run(s: ListState, es: seq<Event>): ListState
    decreases |es|
  {
    if |es| == 0 then s else Run(Step(s, es[0]), es[1..])
  }

  // ----- Insert -----

  /** The same insert delivered twice has the effect of delivering it once. */
  lemma InsertIdempotent(s: ListState, b: Bookmark)
    ensures Step(Step(s, RemoteInsert(b)), RemoteInsert(b)) == Step(s, RemoteInsert(b))
  {
  }

  /** Inserting keeps ids unique, and leaves exactly one entry with the
      inserted id, whether or not it was already present. */
  lemma InsertKeepsUnique(bs: seq<Bookmark>, b: Bookmark)
    requires UniqueIds(bs)
    ensures UniqueIds(InsertIfAbsent(bs, b))
    ensures CountId(InsertIfAbsent(bs, b), b.id) == 1
  {
    var r := InsertIfAbsent(bs, b);
    if !HasId(bs, b.id) {
      forall i, j | 0 <= i < j < |r| ensures r[i].id != r[j].id {
        if i > 0 {
          assert r[i] == bs[i - 1] && r[j] == bs[j - 1];
        } else {
          assert r[j] == bs[j - 1];
        }
      }
    }
    UniqueCountAtMostOne(r, b.id);
  }

  // ----- Delete -----

  /** Deleting an id nobody has changes nothing. */
  lemma {:induction false} DeleteAbsentIsNoop(bs: seq<Bookmark>, id: Id)
    requires !HasId(bs, id)
    ensures RemoveId(bs, id) == bs
  {
    if |bs| > 0 {
      var t := bs[1..];
      assert !HasId(t, id) by {
        forall k | 0 <= k < |t| ensures t[k].id != id {
          assert t[k] == bs[k + 1];
        }
      }
      DeleteAbsentIsNoop(t, id);
      assert RemoveId(bs, id) == [bs[0]] + RemoveId(t, id);
      assert bs == [bs[0]] + t;
    }
  }

  lemma DeleteIdempotent(bs: seq<Bookmark>, id: Id)
    ensures RemoveId(RemoveId(bs, id), id) == RemoveId(bs, id)
  {
    DeleteAbsentIsNoop(RemoveId(bs, id), id);
  }

  /** A delete that arrives before (or without) its row never blocks a
      later insert of that id: the insert always prepends. */
  lemma DeleteThenInsert(s: ListState, b: Bookmark)
    ensures Step(Step(s, RemoteDelete(b.id)), RemoteInsert(b)).bookmarks
            == [b] + RemoveId(s.bookmarks, b.id)
  {
  }

  /** Deleting preserves unique ids. */
  lemma {:induction false} DeleteKeepsUnique(bs: seq<Bookmark>, id: Id)
    requires UniqueIds(bs)
    ensures UniqueIds(RemoveId(bs, id))
  {
    if |bs| > 0 {
      var t := bs[1..];
      UniqueTail(bs);
      DeleteKeepsUnique(t, id);
      var rest := RemoveId(t, id);
      if bs[0].id != id {
        var r := [bs[0]] + rest;
        forall i, j | 0 <= i < j < |r| ensures r[i].id != r[j].id {
          if i == 0 {
            assert r[j] == rest[j - 1];
            assert r[j] in t;
            var k :| 0 <= k < |t| && t[k] == r[j];
            assert t[k] == bs[k + 1];
          } else {
            assert r[i] == rest[i - 1] && r[j] == rest[j - 1];
          }
        }
      }
    }
  }

  lemma UniqueTail(bs: seq<Bookmark>)
    requires UniqueIds(bs) && |bs| > 0
    ensures UniqueIds(bs[1..])
    ensures !HasId(bs[1..], bs[0].id)
  {
    var t := bs[1..];
    forall a, b | 0 <= a < b < |t| ensures t[a].id != t[b].id {
      assert t[a] == bs[a + 1] && t[b] == bs[b + 1];
    }
    forall k | 0 <= k < |t| ensures t[k].id != bs[0].id {
      assert t[k] == bs[k + 1];
    }
  }

  /** With unique ids, deleting the id found at position `i` removes that
      one entry and nothing else. */
  lemma {:induction false} DeleteRemovesOnlyThatEntry(bs: seq<Bookmark>, i: nat)
    requires UniqueIds(bs) && i < |bs|
    ensures RemoveId(bs, bs[i].id) == bs[..i] + bs[i + 1..]
  {
    var id := bs[i].id;
    var t := bs[1..];
    UniqueTail(bs);
    if i == 0 {
      DeleteAbsentIsNoop(t, id);
    } else {
      assert t[i - 1] == bs[i];
      DeleteRemovesOnlyThatEntry(t, i - 1);
      DeleteSpliceStep(bs, i);
    }
  }

  lemma DeleteSpliceStep(bs: seq<Bookmark>, i: nat)
    requires 0 < i < |bs| && bs[0].id != bs[i].id
    requires RemoveId(bs[1..], bs[i].id) == bs[1..][..i - 1] + bs[1..][i..]
    ensures RemoveId(bs, bs[i].id) == bs[..i] + bs[i + 1..]
  {
    assert RemoveId(bs, bs[i].id) == [bs[0]] + RemoveId(bs[1..], bs[i].id);
    SpliceCons(bs, i);
  }

  lemma SpliceCons<T>(bs: seq<T>, i: nat)
    requires 0 < i < |bs|
    ensures [bs[0]] + (bs[1..][..i - 1] + bs[1..][i..]) == bs[..i] + bs[i + 1..]
  {
    assert bs[1..][..i - 1] == bs[1..i];
    assert bs[1..][i..] == bs[i + 1..];
    assert bs[..i] == [bs[0]] + bs[1..i];
  }

  // ----- Event sequences -----

  lemma {:induction false} RunAppend(s: ListState, a: seq<Event>, b: seq<Event>)
    ensures Run(s, a + b) == Run(Run(s, a), b)
    decreases |a|
  {
    if |a| > 0 {
      assert (a + b)[0] == a[0];
      assert (a + b)[1..] == a[1..] + b;
      RunAppend(Step(s, a[0]), a[1..], b);
    } else {
      assert a + b == b;
    }
  }

  predicate NoSnapshot(es: seq<Event>) {
    forall k :: 0 <= k < |es| ==> !es[k].SnapshotResolved?
  }

  /** `loading` is true exactly until the first snapshot event, on success
      and on failure alike, and nothing sets it back. */
  lemma {:induction false} LoadingLifecycle(s: ListState, es: seq<Event>)
    ensures Run(s, es).loading <==> s.loading && NoSnapshot(es)
    decreases |es|
  {
    if |es| > 0 {
      LoadingLifecycle(Step(s, es[0]), es[1..]);
      assert forall k :: 1 <= k < |es| ==> es[k] == es[1..][k - 1];
    }
  }

  /** From mount: the skeleton condition holds until a snapshot resolves. */
  lemma LoadingFromMount(es: seq<Event>)
    ensures Run(Initial, es).loading <==> NoSnapshot(es)
  {
    LoadingLifecycle(Initial, es);
  }

  /** Every snapshot in `es` that replaces the list brings unique ids. */
  predicate SnapshotsUnique(es: seq<Event>) {
    forall k :: 0 <= k < |es| && es[k].SnapshotResolved? && Fetched(es[k].response)
                ==> UniqueIds(es[k].response.data.value)
  }

  /** Unique ids are an invariant of the reducer, provided the snapshot
      rows are unique (they are primary keys). */
  lemma {:induction false} UniqueInvariant(s: ListState, es: seq<Event>)
    requires UniqueIds(s.bookmarks)
    requires SnapshotsUnique(es)
    ensures UniqueIds(Run(s, es).bookmarks)
    decreases |es|
  {
    if |es| > 0 {
      var s' := Step(s, es[0]);
      match es[0] {
        case SnapshotResolved(resp) =>
        case RemoteInsert(b) => InsertKeepsUnique(s.bookmarks, b);
        case RemoteDelete(id) => DeleteKeepsUnique(s.bookmarks, id);
      }
      assert forall k :: 1 <= k < |es| ==> es[k] == es[1..][k - 1];
      UniqueInvariant(s', es[1..]);
    }
  }

  /** However often the same row is announced, interleaved with any other
      events, the list holds it at most once. */
  lemma RepeatedInsertsLeaveOneCopy(es: seq<Event>, id: Id)
    requires SnapshotsUnique(es)
    ensures CountId(Run(Initial, es).bookmarks, id) <= 1
  {
    UniqueInvariant(Initial, es);
    UniqueCountAtMostOne(Run(Initial, es).bookmarks, id);
  }

  /** A fetched snapshot overwrites whatever the earlier events built: the
      final list depends only on the snapshot rows and the events after it.
      Inserts that arrive before the snapshot resolves are not guarded. */
  lemma SnapshotOverwritesEarlierEvents(s: ListState, before: seq<Event>, resp: FetchResponse, after: seq<Event>)
    requires Fetched(resp)
    ensures Run(s, before + [SnapshotResolved(resp)] + after)
            == Run(ListState(resp.data.value, false), after)
  {
    RunAppend(s, before + [SnapshotResolved(resp)], after);
    RunAppend(s, before, [SnapshotResolved(resp)]);
  }

  /** The race in concrete form: a row whose INSERT notification lands
      while the snapshot (taken before the row existed) is still in
      flight disappears from the list once that snapshot resolves. */
  lemma InsertBeforeSnapshotIsLost(b: Bookmark)
    ensures var es := [RemoteInsert(b), SnapshotResolved(FetchResponse(None, Some([])))];
            Run(Initial, es).bookmarks == []
  {
    var es := [RemoteInsert(b), SnapshotResolved(FetchResponse(None, Some([])))];
    SnapshotOverwritesEarlierEvents(Initial, [RemoteInsert(b)], FetchResponse(None, Some([])), []);
    assert [RemoteInsert(b)] + [SnapshotResolved(FetchResponse(None, Some([])))] + [] == es;
  }

  /** A failed snapshot keeps the list built so far; from mount, that is
      the empty list, indistinguishable from an owner with no bookmarks. */
  lemma FailedSnapshotFromMount(err: string)
    ensures Run(Initial, [SnapshotResolved(FetchResponse(Some(err), None))]) == ListState([], false)
    ensures Run(Initial, [SnapshotResolved(FetchResponse(None, None))]) == ListState([], false)
  {
  }

  // ----- Subscriptions -----

  datatype ChangeKind = InsertChange | DeleteChange

  /** One `postgres_changes` registration on the channel. */
  datatype Subscription = Subscription(kind: ChangeKind, schema: string, table: string, filter: Option<string>)

  /** A row-level change on the record store. For a delete only the old
      row's id is read. */
  datatype Change = Change(kind: ChangeKind, schema: string, table: string, row: Bookmark)

  const Schema: string := "public"
  const Table: string := "bookmarks"
  const OwnerFilterPrefix: string := "user_id=eq."

  function OwnerFilter(userId: string): string {
    OwnerFilterPrefix + userId
  }

  /** The two registrations the list makes: INSERT narrowed to the owner,
      DELETE on the whole table with no filter. */
  function Subscriptions(userId: string): (r: seq<Subscription>)
    ensures |r| == 2
    ensures forall k :: 0 <= k < |r| ==> r[k].schema == Schema && r[k].table == Table
    ensures forall k :: 0 <= k < |r| ==> (r[k].filter.Some? <==> r[k].kind == InsertChange)
    ensures forall k :: 0 <= k < |r| && r[k].filter.Some? ==> r[k].filter.value == OwnerFilter(userId)
    ensures exists k :: 0 <= k < |r| && r[k].kind == InsertChange
    ensures exists k :: 0 <= k < |r| && r[k].kind == DeleteChange
  {
    var r := [ Subscription(InsertChange, Schema, Table, Some(OwnerFilter(userId))),
               Subscription(DeleteChange, Schema, Table, None) ];
    assert r[0].kind == InsertChange;
    assert r[1].kind == DeleteChange;
    r
  }

  /** The feed's side of a registration: the event kind, schema and table match,
      and an `user_id=eq.<v>` filter admits rows whose owner is `v`. */
  predicate Admits(sub: Subscription, c: Change) {
    && sub.kind == c.kind
    && sub.schema == c.schema
    && sub.table == c.table
    && (sub.filter.None? || sub.filter.value == OwnerFilter(c.row.userId))
  }

  /** The callback event a change turns into for a list bound to `userId`,
      or `None` when no registration admits it. */
  function Deliver(userId: string, c: Change): (r: Option<Event>)
    ensures r.Some? ==> c.schema == Schema && c.table == Table
    ensures r.Some? && c.kind == InsertChange ==> r.value == RemoteInsert(c.row)
    ensures r.Some? && c.kind == DeleteChange ==> r.value == RemoteDelete(c.row.id)
  {
    var subs := Subscriptions(userId);
    if exists k :: 0 <= k < |subs| && Admits(subs[k], c) then
      Some(if c.kind == InsertChange then RemoteInsert(c.row) else RemoteDelete(c.row.id))
    else None
  }

  lemma OwnerFilterInjective(u1: string, u2: string)
    ensures OwnerFilter(u1) == OwnerFilter(u2) <==> u1 == u2
  {
    var n := |OwnerFilterPrefix|;
    assert OwnerFilter(u1)[n..] == u1;
    assert OwnerFilter(u2)[n..] == u2;
  }

  /** Inserts reach the list only for its own owner; deletes reach it for
      every owner, so the delete callback applies no owner check and
      removes by id alone. */
  lemma DeliveryScope(userId: string, c: Change)
    ensures Deliver(userId, c).Some? <==>
              c.schema == Schema && c.table == Table && (c.kind == DeleteChange || c.row.userId == userId)
    ensures c.schema == Schema && c.table == Table && c.kind == DeleteChange ==>
              Deliver(userId, c) == Some(RemoteDelete(c.row.id))
    ensures c.schema == Schema && c.table == Table && c.kind == InsertChange && c.row.userId == userId ==>
              Deliver(userId, c) == Some(RemoteInsert(c.row))
  {
    OwnerFilterInjective(userId, c.row.userId);
    var subs := Subscriptions(userId);
    if c.schema == Schema && c.table == Table && c.kind == DeleteChange {
      assert Admits(subs[1], c);
    }
    if c.schema == Schema && c.table == Table && c.kind == InsertChange && c.row.userId == userId {
      assert Admits(subs[0], c);
    }
  }

  /** An insert of another owner's row never changes the list. */
  lemma ForeignInsertIgnored(userId: string, c: Change)
    requires c.kind == InsertChange && c.row.userId != userId
    ensures Deliver(userId, c) == None
  {
    DeliveryScope(userId, c);
  }

  // ----- Rendering -----

  /** The three render branches: three shimmering placeholders, the
      "No bookmarks yet" panel, or a count line followed by one card per
      entry in list order. */
  datatype View =
    | Skeleton(placeholders: nat)
    | EmptyState
    | Listing(countLine: string, cards: seq<Bookmark>)

  /** `${n} bookmark${n !== 1 ? "s" : ""} saved`: the digits at its start
      read back as `n`, and the words follow them. */
  function CountLabel(n: nat): (r: string)
    ensures JsStrings.DecimalValue(JsStrings.LeadingDigits(r)) == n
    ensures |JsStrings.NatToString(n)| <= |r| && r[|JsStrings.NatToString(n)|..] == CountTail(n)
  {
    var d := JsStrings.NatToString(n);
    var tail := CountTail(n);
    assert tail[0] == ' ';
    JsStrings.LeadingDigitsOfConcat(d, tail);
    JsStrings.DecimalRoundTrip(n);
    assert (d + tail)[|d|..] == tail;
    d + tail
  }

  /** The words after the number. */
  function CountTail(n: nat): string {
    " bookmark" + (if n != 1 then "s" else "") + " saved"
  }

  /** Branch selection: loading first, then emptiness, then the listing. */
  function Render(s: ListState): (v: View)
    ensures v.Skeleton? <==> s.loading
    ensures v.Skeleton? ==> v.placeholders == 3
    ensures v.EmptyState? <==> !s.loading && |s.bookmarks| == 0
    ensures v.Listing? ==> v.cards == s.bookmarks && v.countLine == CountLabel(|s.bookmarks|)
  {
    if s.loading then Skeleton(3)
    else if |s.bookmarks| == 0 then EmptyState
    else Listing(CountLabel(|s.bookmarks|), s.bookmarks)
  }

  /** The words after the number say "bookmarks" exactly when the number
      is not one. */
  lemma CountTailPlural(n: nat)
    ensures CountTail(n) == " bookmarks saved" <==> n != 1
    ensures CountTail(n) == " bookmark saved" <==> n == 1
  {
    if n != 1 {
      assert |CountTail(n)| != |" bookmark saved"|;
    } else {
      assert |CountTail(n)| != |" bookmarks saved"|;
    }
  }
}
