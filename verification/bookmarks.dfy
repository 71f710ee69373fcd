/**
  The bookmark row shared by the three components, the id-keyed queries
  over a list of rows, and the cross-tab broadcast messages the components
  send after a mutation.
 */
module Bookmarks {
  import opened Wrappers

  /** The primary key the record store assigns to a row. */
  type Id = string

  /** One row of the `bookmarks` table as the client receives it. */
  datatype Bookmark = Bookmark(id: Id, userId: string, title: string, url: string, createdAt: string)

  predicate HasId(bs: seq<Bookmark>, id: Id) {
    exists i :: 0 <= i < |bs| && bs[i].id == id
  }

  /** The number of entries carrying `id`. */
  function CountId(bs: seq<Bookmark>, id: Id): nat {
    if |bs| == 0 then 0 else (if bs[0].id == id then 1 else 0) + CountId(bs[1..], id)
  }

  /** No two entries share an id (what the list's `key={bookmark.id}` needs). */
  predicate UniqueIds(bs: seq<Bookmark>) {
    forall i, j :: 0 <= i < j < |bs| ==> bs[i].id != bs[j].id
  }

  /** `a` can be obtained from `b` by dropping entries, keeping the order of
      the rest. */
  predicate IsSubsequence<T(==)>(a: seq<T>, b: seq<T>)
    decreases |b|
  {
    if |a| == 0 then true
    else if |b| == 0 then false
    else (a[0] == b[0] && IsSubsequence(a[1..], b[1..])) || IsSubsequence(a, b[1..])
  }

  lemma {:induction false} CountIdPositive(bs: seq<Bookmark>, id: Id)
    ensures CountId(bs, id) > 0 <==> HasId(bs, id)
  {
    if |bs| > 0 {
      CountIdPositive(bs[1..], id);
      if HasId(bs, id) && bs[0].id != id {
        var i :| 0 <= i < |bs| && bs[i].id == id;
        assert bs[1..][i - 1].id == id;
      }
    }
  }

  lemma {:induction false} UniqueCountAtMostOne(bs: seq<Bookmark>, id: Id)
    requires UniqueIds(bs)
    ensures CountId(bs, id) <= 1
    ensures CountId(bs, id) == 1 <==> HasId(bs, id)
  {
    CountIdPositive(bs, id);
    if |bs| > 0 {
      UniqueCountAtMostOne(bs[1..], id);
      if bs[0].id == id {
        assert forall k :: 0 <= k < |bs| - 1 ==> bs[1..][k] == bs[k + 1];
        CountIdPositive(bs[1..], id);
      }
    }
  }

  const SyncTopicPrefix: string := "bookmarks-sync-"

  /** The broadcast topic of one owner: `bookmarks-sync-${userId}`. */
  function SyncTopic(userId: string): (t: string)
    ensures |t| == |SyncTopicPrefix| + |userId|
    ensures t[..|SyncTopicPrefix|] == SyncTopicPrefix
  {
    SyncTopicPrefix + userId
  }

  /** The owner a topic name belongs to, if it is a sync topic at all. */
  function TopicOwner(topic: string): Option<string> {
    var n := |SyncTopicPrefix|;
    if n <= |topic| && topic[..n] == SyncTopicPrefix then Some(topic[n..]) else None
  }

  /** Topic names and owners determine each other, so a tab listening on
      its own owner's topic never sees another owner's messages. */
  lemma TopicRoundTrip(userId: string, topic: string)
    ensures TopicOwner(SyncTopic(userId)) == Some(userId)
    ensures TopicOwner(topic) == Some(userId) ==> SyncTopic(userId) == topic
  {
    var n := |SyncTopicPrefix|;
    assert SyncTopic(userId)[n..] == userId;
    if TopicOwner(topic) == Some(userId) {
      assert topic == topic[..n] + topic[n..];
    }
  }

  lemma SyncTopicInjective(u1: string, u2: string)
    ensures SyncTopic(u1) == SyncTopic(u2) <==> u1 == u2
  {
    TopicRoundTrip(u1, SyncTopic(u2));
    TopicRoundTrip(u2, SyncTopic(u2));
  }

  /** What a broadcast carries: the whole inserted row, or only the id of
      the deleted one. */
  datatype Payload = AddedRow(row: Bookmark) | DeletedId(id: Id)

  /** A `{ type: "broadcast", event, payload }` message sent on `topic`. */
  datatype Message = Message(topic: string, event: string, payload: Payload)

  const AddedEvent: string := "bookmark-added"
  const DeletedEvent: string := "bookmark-deleted"

  /** The message announcing a freshly inserted row to the owner's other tabs. */
  function AddedMessage(userId: string, row: Bookmark): (m: Message)
    ensures TopicOwner(m.topic) == Some(userId)
    ensures m.event == AddedEvent && m.payload == AddedRow(row)
  {
    TopicRoundTrip(userId, "");
    Message(SyncTopic(userId), AddedEvent, AddedRow(row))
  }

  /** The message announcing a deletion: sent on the row owner's topic and
      carrying nothing but the id. */
  function DeletedMessage(b: Bookmark): (m: Message)
    ensures TopicOwner(m.topic) == Some(b.userId)
    ensures m.event == DeletedEvent && m.payload == DeletedId(b.id)
  {
    TopicRoundTrip(b.userId, "");
    Message(SyncTopic(b.userId), DeletedEvent, DeletedId(b.id))
  }

  /** What a component sends beyond its own state: a row delete to the
      record store, a broadcast, or a call of the form's `onBookmarkAdded`
      callback. */
  datatype Effect = DeleteRow(id: Id) | Broadcast(msg: Message) | NotifyAdded(row: Bookmark)
}
