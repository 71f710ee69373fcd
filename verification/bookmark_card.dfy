/**
  One rendered bookmark: the host name shown under the title, the
  `deleting` flag set by the delete button, and what a delete click sends.
  URL parsing is a parameter.
 */
module BookmarkCard {
  import opened Wrappers
  import opened Bookmarks
  import JsStrings

  const WwwPrefix: string := "www."

  /** The shown domain: the parsed host name with its first "www." removed
      (wherever it occurs, not only at the start), or the raw text when it
      does not parse. `hostnameOf` stands for `new URL(url).hostname`,
      `None` for a throw. */
  function GetDomain(url: string, hostnameOf: string -> Option<string>): (r: string)
    ensures hostnameOf(url).None? ==> r == url
    ensures hostnameOf(url).Some? && !JsStrings.Contains(hostnameOf(url).value, WwwPrefix) ==>
              r == hostnameOf(url).value
    ensures hostnameOf(url).Some? && JsStrings.Contains(hostnameOf(url).value, WwwPrefix) ==>
              |r| == |hostnameOf(url).value| - 4
  {
    match hostnameOf(url)
    case None => url
    case Some(host) => JsStrings.RemoveFirst(host, WwwPrefix)
  }

  /** Where "www." occurs, putting it back at its first occurrence gives
      the host name again, so nothing else was altered. */
  lemma GetDomainRestores(url: string, hostnameOf: string -> Option<string>)
    requires hostnameOf(url).Some? && JsStrings.Contains(hostnameOf(url).value, WwwPrefix)
    ensures var host := hostnameOf(url).value;
            var i := JsStrings.IndexOf(host, WwwPrefix).value;
            var r := GetDomain(url, hostnameOf);
            i <= |r| && r[..i] + WwwPrefix + r[i..] == host
  {
    JsStrings.RemoveFirstInverse(hostnameOf(url).value, WwwPrefix);
  }

  /** A "www." in the middle of the host name is removed too. */
  lemma InnerWwwRemoved()
    ensures JsStrings.RemoveFirst("shop.www.example.com", WwwPrefix) == "shop.example.com"
  {
    var h := "shop.www.example.com";
    assert h[5..9] == WwwPrefix;
    forall j | 0 <= j < 5 ensures !JsStrings.OccursAt(h, WwwPrefix, j) {
      assert h[j..j + 4][0] == h[j] != 'w';
    }
    JsStrings.IndexOfIsFirstOccurrence(h, WwwPrefix, 5);
    assert h[..5] == "shop.";
    assert h[9..] == "example.com";
  }

  /** Of two "www." only the first is removed. */
  lemma OnlyFirstWwwRemoved()
    ensures JsStrings.RemoveFirst("www.www.example.com", WwwPrefix) == "www.example.com"
  {
    var h := "www.www.example.com";
    assert h[0..4] == WwwPrefix;
    JsStrings.IndexOfIsFirstOccurrence(h, WwwPrefix, 0);
    assert h[4..] == "www.example.com";
  }

  datatype Card = Card(bookmark: Bookmark, deleting: bool)

  /** A card as first rendered for a row: `useState(false)`. */
  function Mount(b: Bookmark): (c: Card)
    ensures c.bookmark == b && !c.deleting
  {
    Card(b, false)
  }

  datatype Clicked = Clicked(card: Card, effects: seq<Effect>)

  /** A click on the delete button. While `deleting` the button is
      disabled and a click does nothing. Otherwise the handler sets the
      flag and deletes the row by id. A returned error is not inspected,
      so the id is then announced on the owner's topic; but the awaited
      delete has no `catch`, so when it rejects (`deleteThrew`) the handler
      stops before the broadcast. Nothing ever clears the flag. */
  function ClickDelete(c: Card, deleteThrew: bool): (r: Clicked)
    ensures r.card.deleting && r.card.bookmark == c.bookmark
    ensures c.deleting ==> r.effects == []
    ensures !c.deleting ==> |r.effects| == (if deleteThrew then 1 else 2)
    ensures !c.deleting ==> r.effects[0] == DeleteRow(c.bookmark.id)
    ensures !c.deleting && !deleteThrew ==>
              && r.effects[1].Broadcast?
              && TopicOwner(r.effects[1].msg.topic) == Some(c.bookmark.userId)
              && r.effects[1].msg.event == DeletedEvent
              && r.effects[1].msg.payload == DeletedId(c.bookmark.id)
  {
    if c.deleting then Clicked(c, [])
    else
      Clicked(c.(deleting := true),
              [DeleteRow(c.bookmark.id)] + (if deleteThrew then [] else [Broadcast(DeletedMessage(c.bookmark))]))
  }

  /** `n` clicks in a row, collecting what they send; `deleteThrew` says
      whether a delete they start rejects. */
  function Clicks(c: Card, n: nat, deleteThrew: bool): Clicked
    decreases n
  {
    if n == 0 then Clicked(c, [])
    else
      var first := ClickDelete(c, deleteThrew);
      var rest := Clicks(first.card, n - 1, deleteThrew);
      Clicked(rest.card, first.effects + rest.effects)
  }

  /** Once set, `deleting` stays set. */
  lemma {:induction false} DeletingIsMonotone(c: Card, n: nat, deleteThrew: bool)
    requires c.deleting
    ensures Clicks(c, n, deleteThrew).card == c
    ensures Clicks(c, n, deleteThrew).effects == []
    decreases n
  {
    if n > 0 {
      DeletingIsMonotone(c, n - 1, deleteThrew);
    }
  }

  /** What `deleting` changes on screen: the opacity of the whole card
      (its root element), and the delete button's disabled state and
      caption. */
  datatype CardLook = CardLook(cardOpacityPercent: nat, buttonDisabled: bool, buttonCaption: string)

  /** While deleting, the whole card is at half opacity and the button is
      disabled and reads "..."; otherwise the card is opaque and the button
      reads "Delete". */
  function RenderCard(c: Card): (v: CardLook)
    ensures v.cardOpacityPercent == 50 <==> c.deleting
    ensures !c.deleting ==> v.cardOpacityPercent == 100
    ensures v.buttonDisabled <==> c.deleting
    ensures v.buttonCaption == "..." <==> c.deleting
    ensures v.buttonCaption == "Delete" <==> !c.deleting
  {
    if c.deleting then CardLook(50, true, "...") else CardLook(100, false, "Delete")
  }

  /** However many times a fresh card's button is clicked, the row is
      deleted exactly once and, unless the delete rejects, announced
      exactly once; from the first click on the card stays dimmed and its
      button disabled and reading "...", even after a rejected delete. */
  lemma {:induction false} DeleteSentOnce(b: Bookmark, n: nat, deleteThrew: bool)
    requires n > 0
    ensures Clicks(Mount(b), n, deleteThrew).card == Card(b, true)
    ensures Clicks(Mount(b), n, deleteThrew).effects ==
              [DeleteRow(b.id)] + (if deleteThrew then [] else [Broadcast(DeletedMessage(b))])
    ensures RenderCard(Clicks(Mount(b), n, deleteThrew).card) == CardLook(50, true, "...")
    ensures RenderCard(Mount(b)) == CardLook(100, false, "Delete")
  {
    DeletingIsMonotone(Card(b, true), n - 1, deleteThrew);
    assert ClickDelete(Mount(b), deleteThrew).card == Card(b, true);
  }
}
