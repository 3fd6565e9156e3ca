/** The Gmail API client: `list_history_since` pages through the mailbox's
    change log, collects the ids of added messages into a set and tracks the
    largest history id seen under Python's string order; `fetch_attachment`
    returns empty bytes when the response carries no data. */
module GmailClient {
  import opened Common

  // ---------------------------------------------------------------------
  // History responses, reduced to the keys the client reads.
  // ---------------------------------------------------------------------

  /** `added["message"]` with its "id". */
  datatype MessageRef = MessageRef(id: Option<string>)

  /** One item of `messagesAdded`. */
  datatype Added = Added(message: Option<MessageRef>)

  /** One history entry: its id (already rendered by `str`) and the messages
      it added. */
  datatype HistoryEntry = HistoryEntry(id: Option<string>, messagesAdded: seq<Added>)

  /** One response of `history.list`. */
  datatype HistoryPage = HistoryPage(history: seq<HistoryEntry>, nextPageToken: Option<string>)

  /** The arguments of one `history.list` request. */
  datatype PageRequest = PageRequest(startHistoryId: string, pageToken: Option<string>)

  // ---------------------------------------------------------------------
  // Specification
  // ---------------------------------------------------------------------

  /** The id an added item contributes: its message id, when that is truthy. */
  function AddedId(a: Added): Option<string> {
    if a.message.Some? && Truthy(a.message.value.id) then a.message.value.id else None
  }

  function ItemIds(items: seq<Added>): set<string> {
    if items == [] then {}
    else
      var last := AddedId(items[|items| - 1]);
      ItemIds(items[..|items| - 1]) + (if last.Some? then {last.value} else {})
  }

  function EntryIds(entries: seq<HistoryEntry>): set<string> {
    if entries == [] then {}
    else EntryIds(entries[..|entries| - 1]) + ItemIds(entries[|entries| - 1].messagesAdded)
  }

  /** An id is collected iff some entry has an added item whose message id is
      that (truthy) id. */
  lemma {:induction false} EntryIdsExactly(entries: seq<HistoryEntry>, m: string)
    ensures m in EntryIds(entries) <==>
      exists i, j :: 0 <= i < |entries| && 0 <= j < |entries[i].messagesAdded| &&
        AddedId(entries[i].messagesAdded[j]) == Some(m)
  {
    if entries != [] {
      var init := entries[..|entries| - 1];
      var last := entries[|entries| - 1];
      EntryIdsExactly(init, m);
      ItemIdsExactly(last.messagesAdded, m);
      if exists i, j :: (0 <= i < |entries| && 0 <= j < |entries[i].messagesAdded| &&
                         AddedId(entries[i].messagesAdded[j]) == Some(m))
      {
        var i, j :| 0 <= i < |entries| && 0 <= j < |entries[i].messagesAdded| &&
          AddedId(entries[i].messagesAdded[j]) == Some(m);
        if i < |entries| - 1 {
          assert entries[i] == init[i];
        }
      }
      if m in EntryIds(init) {
        var i, j :| 0 <= i < |init| && 0 <= j < |init[i].messagesAdded| &&
          AddedId(init[i].messagesAdded[j]) == Some(m);
        assert entries[i] == init[i];
      }
    }
  }

  lemma {:induction false} ItemIdsExactly(items: seq<Added>, m: string)
    ensures m in ItemIds(items) <==> exists j :: 0 <= j < |items| && AddedId(items[j]) == Some(m)
  {
    if items != [] {
      var init := items[..|items| - 1];
      ItemIdsExactly(init, m);
      if exists j :: 0 <= j < |items| && AddedId(items[j]) == Some(m) {
        var j :| 0 <= j < |items| && AddedId(items[j]) == Some(m);
        if j < |items| - 1 {
          assert items[j] == init[j];
        }
      }
      if m in ItemIds(init) {
        var j :| 0 <= j < |init| && AddedId(init[j]) == Some(m);
        assert items[j] == init[j];
      }
    }
  }

  /** One watermark step: `hid = str(h.get("id", last))`, kept when `hid > last`. */
  function Step(last: string, h: HistoryEntry): (r: string)
    ensures r == last || (h.id.Some? && r == h.id.value && StrLess(last, r))
    ensures !StrLess(r, last)
    ensures h.id.Some? ==> !StrLess(r, h.id.value)
  {
    var hid := h.id.GetOr(last);
    StrLessIrreflexive(last);
    StrLessIrreflexive(hid);
    if StrLess(last, hid) then
      StrLessAsymmetric(last, hid);
      hid
    else last
  }

  function Watermark(start: string, entries: seq<HistoryEntry>): string {
    if entries == [] then start
    else Step(Watermark(start, entries[..|entries| - 1]), entries[|entries| - 1])
  }

  /** The watermark is the maximum, under string order, of the start and of
      every entry id: never below the start, never below an entry id, and
      equal to the start or to one of the entry ids. */
  lemma {:induction false} WatermarkIsMaximum(start: string, entries: seq<HistoryEntry>)
    ensures !StrLess(Watermark(start, entries), start)
    ensures forall i :: 0 <= i < |entries| && entries[i].id.Some? ==>
      !StrLess(Watermark(start, entries), entries[i].id.value)
    ensures Watermark(start, entries) == start ||
      exists i :: 0 <= i < |entries| && entries[i].id == Some(Watermark(start, entries))
  {
    if entries == [] {
      StrLessIrreflexive(start);
    } else {
      var init := entries[..|entries| - 1];
      var last := entries[|entries| - 1];
      var w0 := Watermark(start, init);
      var w := Watermark(start, entries);
      WatermarkIsMaximum(start, init);
      StrLessIrreflexive(w);
      if w != w0 {
        // the last entry raised the watermark: w0 < w
        assert StrLess(w0, w) && last.id == Some(w);
        StrLessAsymmetric(w0, w);
        if StrLess(w, start) {
          StrLessTransitive(w0, w, start);
        }
        forall i | 0 <= i < |entries| - 1 && entries[i].id.Some?
          ensures !StrLess(w, entries[i].id.value)
        {
          assert entries[i] == init[i];
          if StrLess(w, entries[i].id.value) {
            StrLessTransitive(w0, w, entries[i].id.value);
          }
        }
      } else {
        forall i | 0 <= i < |entries| - 1 && entries[i].id.Some?
          ensures !StrLess(w, entries[i].id.value)
        {
          assert entries[i] == init[i];
        }
        if last.id.Some? && StrLess(w, last.id.value) {
          assert false;
        }
        if w != start {
          var i :| 0 <= i < |init| && init[i].id == Some(w0);
          assert entries[i] == init[i];
        }
      }
    }
  }

  /** An entry without an id leaves the watermark where it was. */
  lemma EntryWithoutIdKeepsWatermark(last: string, h: HistoryEntry)
    requires h.id.None?
    ensures Step(last, h) == last
  {
    StrLessIrreflexive(last);
  }

  /** Index of the first page without a next-page token: the last page read. */
  predicate Ends(pages: seq<HistoryPage>) {
    exists k :: 0 <= k < |pages| && !Truthy(pages[k].nextPageToken)
  }

  function LastPage(pages: seq<HistoryPage>): (k: nat)
    requires Ends(pages)
    ensures k < |pages| && !Truthy(pages[k].nextPageToken)
    ensures forall j :: 0 <= j < k ==> Truthy(pages[j].nextPageToken)
  {
    if !Truthy(pages[0].nextPageToken) then 0
    else
      assert Ends(pages[1..]) by {
        var k :| 0 <= k < |pages| && !Truthy(pages[k].nextPageToken);
        assert pages[1..][k - 1] == pages[k];
      }
      var k := 1 + LastPage(pages[1..]);
      assert forall j :: 1 <= j < k ==> pages[j] == pages[1..][j - 1];
      k
  }

  /** The requests that read `pages[..n]`: the first without a page token,
      each later one with the token of the page before it. */
  function PageRequests(start: string, pages: seq<HistoryPage>, n: nat): seq<PageRequest>
    requires n <= |pages|
  {
    if n == 0 then []
    else PageRequests(start, pages, n - 1) + [PageRequest(start, if n == 1 then None else pages[n - 2].nextPageToken)]
  }

  lemma {:induction false} PageRequestsShape(start: string, pages: seq<HistoryPage>, n: nat)
    requires n <= |pages|
    ensures |PageRequests(start, pages, n)| == n
    ensures forall k :: 0 <= k < n ==> PageRequests(start, pages, n)[k].startHistoryId == start
    ensures n > 0 ==> PageRequests(start, pages, n)[0].pageToken.None?
    ensures forall k :: 0 < k < n ==> PageRequests(start, pages, n)[k].pageToken == pages[k - 1].nextPageToken
  {
    if n > 0 {
      PageRequestsShape(start, pages, n - 1);
    }
  }

  /** The history entries of the pages `pages[..n]`, in order. */
  function EntriesOf(pages: seq<HistoryPage>): seq<HistoryEntry> {
    if pages == [] then [] else EntriesOf(pages[..|pages| - 1]) + pages[|pages| - 1].history
  }

  lemma EntriesOfStep(pages: seq<HistoryPage>, k: nat)
    requires k < |pages|
    ensures EntriesOf(pages[..k + 1]) == EntriesOf(pages[..k]) + pages[k].history
  {
    assert pages[..k + 1][..k] == pages[..k];
  }

  lemma {:induction false} EntriesOfEmpty(pages: seq<HistoryPage>)
    requires forall k :: 0 <= k < |pages| ==> pages[k].history == []
    ensures EntriesOf(pages) == []
  {
    if pages != [] {
      EntriesOfEmpty(pages[..|pages| - 1]);
    }
  }

  // ---------------------------------------------------------------------
  // `list_history_since`
  // ---------------------------------------------------------------------

  /** `list_history_since`, with the server's successive responses given as
      `pages`. Returns the message ids (each once, exactly the added ids of
      the pages read), the new watermark (the string-order maximum of the
      start and the entry ids read) and the requests it made (all with the
      same start id, the first without a page token, each later one with the
      previous page's token, stopping at the first page without a token). */
  method ListHistorySince(start: string, pages: seq<HistoryPage>)
    returns (ids: seq<string>, last: string, requests: seq<PageRequest>)
    requires Ends(pages)
    ensures requests == PageRequests(start, pages, LastPage(pages) + 1)
    ensures forall i, j :: 0 <= i < j < |ids| ==> ids[i] != ids[j]
    ensures forall m :: m in ids <==> m in EntryIds(EntriesOf(pages[..LastPage(pages) + 1]))
    ensures last == Watermark(start, EntriesOf(pages[..LastPage(pages) + 1]))
  {
    var messageIds;
    messageIds, last, requests := ReadPages(start, pages);
    ids := ListOfSet(messageIds);
  }

  /** The page loop of `list_history_since`: read pages until one comes
      without a next-page token. */
  method ReadPages(start: string, pages: seq<HistoryPage>)
    returns (messageIds: set<string>, last: string, requests: seq<PageRequest>)
    requires Ends(pages)
    ensures requests == PageRequests(start, pages, LastPage(pages) + 1)
    ensures messageIds == EntryIds(EntriesOf(pages[..LastPage(pages) + 1]))
    ensures last == Watermark(start, EntriesOf(pages[..LastPage(pages) + 1]))
  {
    var pageToken: Option<string> := None;
    messageIds := {};
    last := start;
    requests := [];
    ghost var stop := LastPage(pages);
    var k := 0;
    while true
      invariant 0 <= k <= stop
      invariant requests == PageRequests(start, pages, k)
      invariant pageToken == if k == 0 then None else pages[k - 1].nextPageToken
      invariant messageIds == EntryIds(EntriesOf(pages[..k]))
      invariant last == Watermark(start, EntriesOf(pages[..k]))
      decreases stop - k
    {
      requests := requests + [PageRequest(start, pageToken)];
      var resp := pages[k];
      ghost var seen := EntriesOf(pages[..k]);
      last, messageIds := ScanEntries(start, seen, resp.history, last, messageIds);
      EntriesOfStep(pages, k);
      PageLoopExit(pages, k);
      pageToken := resp.nextPageToken;
      if !Truthy(pageToken) {
        break;
      }
      k := k + 1;
    }
  }

  /** Reading page `k` (not past the last one) ends the loop exactly when it
      is the last page. */
  lemma PageLoopExit(pages: seq<HistoryPage>, k: nat)
    requires Ends(pages) && k <= LastPage(pages)
    ensures Truthy(pages[k].nextPageToken) <==> k < LastPage(pages)
  {
  }

  /** When the pages read hold no history, nothing is collected and the
      watermark stays at the start id. */
  lemma NoHistoryNoChange(start: string, pages: seq<HistoryPage>)
    requires Ends(pages)
    requires forall k :: 0 <= k <= LastPage(pages) ==> pages[k].history == []
    ensures EntryIds(EntriesOf(pages[..LastPage(pages) + 1])) == {}
    ensures Watermark(start, EntriesOf(pages[..LastPage(pages) + 1])) == start
  {
    EntriesOfEmpty(pages[..LastPage(pages) + 1]);
  }

  /** The body of the page loop: for each history entry, raise the watermark
      and add the ids of its added messages. */
  method ScanEntries(ghost start: string, ghost seen: seq<HistoryEntry>, history: seq<HistoryEntry>,
                     last0: string, ids0: set<string>)
    returns (last: string, messageIds: set<string>)
    requires last0 == Watermark(start, seen) && ids0 == EntryIds(seen)
    ensures last == Watermark(start, seen + history)
    ensures messageIds == EntryIds(seen + history)
  {
    last, messageIds := last0, ids0;
    var i := 0;
    assert seen + history[..0] == seen;
    while i < |history|
      invariant 0 <= i <= |history|
      invariant messageIds == EntryIds(seen + history[..i])
      invariant last == Watermark(start, seen + history[..i])
    {
      var h := history[i];
      var hid := h.id.GetOr(last);
      if StrLess(last, hid) {
        last := hid;
      }
      messageIds := AddMessageIds(h.messagesAdded, messageIds);
      assert (seen + history[..i + 1])[..|seen + history[..i + 1]| - 1] == seen + history[..i];
      i := i + 1;
    }
    assert history[..i] == history;
  }

  /** The inner loop: add the id of each added message that has one. */
  method AddMessageIds(items: seq<Added>, ids0: set<string>) returns (messageIds: set<string>)
    ensures messageIds == ids0 + ItemIds(items)
  {
    messageIds := ids0;
    var j := 0;
    while j < |items|
      invariant 0 <= j <= |items|
      invariant messageIds == ids0 + ItemIds(items[..j])
    {
      var added := items[j];
      if added.message.Some? && Truthy(added.message.value.id) {
        messageIds := messageIds + {added.message.value.id.value};
      }
      assert items[..j + 1][..j] == items[..j];
      j := j + 1;
    }
    assert items[..j] == items;
  }

  /** `list(message_ids)`: every element of the set exactly once, in some order. */
  method ListOfSet(s: set<string>) returns (ids: seq<string>)
    ensures forall m :: m in ids <==> m in s
    ensures forall i, j :: 0 <= i < j < |ids| ==> ids[i] != ids[j]
    ensures |ids| == |s|
  {
    ids := [];
    var rest := s;
    while rest != {}
      invariant rest <= s
      invariant forall m :: m in ids <==> m in s - rest
      invariant forall i, j :: 0 <= i < j < |ids| ==> ids[i] != ids[j]
      invariant |ids| + |rest| == |s|
      decreases rest
    {
      var m :| m in rest;
      ids := ids + [m];
      rest := rest - {m};
    }
  }

  /** The response of `attachments.get`, reduced to its "data". */
  datatype AttachmentResponse = AttachmentResponse(data: Option<string>)

  /** `fetch_attachment`: no data (absent or "") gives empty bytes; otherwise
      the base64url decoding of the data, which may fail (`None`). */
  function FetchAttachment(resp: AttachmentResponse, b64Decode: string -> Option<seq<byte>>): (r: Option<seq<byte>>)
    ensures !Truthy(resp.data) ==> r == Some([])
    ensures Truthy(resp.data) ==> r == b64Decode(resp.data.value)
  {
    if !Truthy(resp.data) then Some([]) else b64Decode(resp.data.value)
  }

  // ---------------------------------------------------------------------
  // Scenarios
  // ---------------------------------------------------------------------

  /** Two pages with two entries each way unfold in order. */
  lemma TwoPagesUnfold(p1: HistoryPage, p2: HistoryPage)
    ensures EntriesOf([p1, p2]) == p1.history + p2.history
  {
    assert [p1, p2][..1] == [p1];
    assert [p1][..0] == [];
    assert EntriesOf([p1]) == p1.history;
  }

  lemma TwoEntriesUnfold(start: string, e1: HistoryEntry, e2: HistoryEntry)
    ensures EntryIds([e1, e2]) == ItemIds(e1.messagesAdded) + ItemIds(e2.messagesAdded)
    ensures Watermark(start, [e1, e2]) == Step(Step(start, e1), e2)
  {
    assert [e1, e2][..1] == [e1];
    assert [e1][..0] == [];
    assert EntryIds([e1]) == ItemIds(e1.messagesAdded);
    assert Watermark(start, [e1]) == Step(start, e1);
  }

  lemma TwoItemsUnfold(a1: Added, a2: Added)
    ensures ItemIds([a1]) == (if AddedId(a1).Some? then {AddedId(a1).value} else {})
    ensures ItemIds([a1, a2]) == ItemIds([a1]) + (if AddedId(a2).Some? then {AddedId(a2).value} else {})
  {
    assert [a1, a2][..1] == [a1];
    assert [a1][..0] == [];
    assert ItemIds([a1][..0]) == {};
  }

  /** A two-page scenario: the first page (token "p2") adds M1 in entry 101,
      the second (no token) adds M1 and M2 in entry 103; from start id 100
      the client reads both pages, collects {M1, M2} and ends at 103. */
  lemma TwoPageScenario()
    ensures var pages := [
        HistoryPage([HistoryEntry(Some("101"), [Added(Some(MessageRef(Some("M1"))))])], Some("p2")),
        HistoryPage([HistoryEntry(Some("103"), [Added(Some(MessageRef(Some("M1")))), Added(Some(MessageRef(Some("M2"))))])], None)];
      && !Truthy(pages[1].nextPageToken) && Ends(pages)
      && LastPage(pages) == 1
      && EntryIds(EntriesOf(pages[..2])) == {"M1", "M2"}
      && Watermark("100", EntriesOf(pages[..2])) == "103"
  {
    var m1 := Added(Some(MessageRef(Some("M1"))));
    var m2 := Added(Some(MessageRef(Some("M2"))));
    var e1 := HistoryEntry(Some("101"), [m1]);
    var e2 := HistoryEntry(Some("103"), [m1, m2]);
    var pages := [HistoryPage([e1], Some("p2")), HistoryPage([e2], None)];
    assert pages[..2] == pages;
    TwoPagesUnfold(pages[0], pages[1]);
    assert EntriesOf(pages) == [e1, e2];
    TwoEntriesUnfold("100", e1, e2);
    TwoItemsUnfold(m1, m2);
    assert StrLess("100", "101");
    assert StrLess("101", "103");
  }

  /** Under string order a shorter numeric id can outrank a longer one: from
      "9", an entry with id "10" leaves the watermark at "9". */
  lemma StringOrderIsNotNumeric()
    ensures Watermark("9", [HistoryEntry(Some("10"), [])]) == "9"
  {
    var es := [HistoryEntry(Some("10"), [])];
    assert es[..0] == [];
    assert !StrLess("9", "10");
  }
}
