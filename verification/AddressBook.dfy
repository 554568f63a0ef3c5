/** Synchronising a user's personal address book with the list a client uploads. */
module AddressBookSpec {
  import opened Wrappers
  import opened Identities
  import opened Maps

  datatype Card = Card(
    username: string, password: string, hostname: string, alias: string, platform: string, tags: string, hash: string,
    rdpPort: string, rdpUsername: string, loginName: string,
    forceAlwaysRelay: bool, online: bool, sameServer: bool)

  datatype Entry = Entry(id: string, userID: nat, collectionID: nat, card: Card)

  datatype Table = Table(rows: map<nat, Entry>, next: nat)

  datatype Inventory = Inventory(platform: string, username: string, hostname: string)

  /** What the peer table knows of an id: of a verified device, and of a device of the same user. */
  datatype Peers = Peers(verified: string -> Option<Inventory>, owned: string -> Option<Inventory>)

  datatype Request = Request(userID: nat, wanted: map<string, Card>, peers: Peers)

  datatype Upload = Upload(id: string, card: Card)

  /** By normalized id; of two uploads with one id the later counts. */
  function Wanted(uploads: seq<Upload>): map<string, Card> {
    if uploads == [] then map[]
    else
      var last := uploads[|uploads| - 1];
      Wanted(uploads[..|uploads| - 1])[Normalize(last.id) := last.card]
  }

  function WithInventory(card: Card, inventory: Option<Inventory>): Card {
    if inventory.None? then card
    else card.(platform := inventory.value.platform, username := inventory.value.username,
               hostname := inventory.value.hostname)
  }

  /** The verified inventory overrides what the client sent. */
  function Refreshed(q: Request, id: string): Card
    requires id in q.wanted
  {
    WithInventory(q.wanted[id], q.peers.verified(id))
  }

  /** A new entry with a gap takes the user's own device's inventory, all three columns. */
  function Created(q: Request, id: string): Card
    requires id in q.wanted
  {
    var card := Refreshed(q, id);
    if q.peers.verified(id).None? && (card.platform == "" || card.username == "" || card.hostname == "")
    then WithInventory(card, q.peers.owned(id)) else card
  }

  function Text(stored: string, sent: string): string {
    if sent == "" then stored else sent
  }

  /** A struct update skips zero values: it can not empty a column or switch a flag off. */
  function Merged(stored: Card, sent: Card): Card {
    Card(Text(stored.username, sent.username), Text(stored.password, sent.password),
         Text(stored.hostname, sent.hostname), Text(stored.alias, sent.alias), Text(stored.platform, sent.platform),
         Text(stored.tags, sent.tags), Text(stored.hash, sent.hash), Text(stored.rdpPort, sent.rdpPort),
         Text(stored.rdpUsername, sent.rdpUsername), Text(stored.loginName, sent.loginName),
         stored.forceAlwaysRelay || sent.forceAlwaysRelay, stored.online || sent.online,
         stored.sameServer || sent.sameServer)
  }

  /** An empty id is a zero value too, and the column's default is the text "0". */
  function StoredID(id: string): string {
    if id == "" then "0" else id
  }

  /** The row that an entry without one gets. */
  function NewRow(q: Request, id: string): Entry
    requires id in q.wanted
  {
    Entry(StoredID(id), q.userID, 0, Created(q, id))
  }

  predicate Personal(e: Entry, userID: nat) {
    e.userID == userID && e.collectionID == 0
  }

  function PersonalRows(t: Table, userID: nat): set<nat> {
    set r | r in t.rows && Personal(t.rows[r], userID)
  }

  /** The rows one sync knows by id: one personal row for each stored id, whichever came last. */
  ghost predicate Chosen(before: Table, userID: nat, chosen: map<string, nat>) {
    && (forall id | id in chosen :: chosen[id] in PersonalRows(before, userID) && before.rows[chosen[id]].id == id)
    && (forall r | r in PersonalRows(before, userID) :: before.rows[r].id in chosen)
  }

  /** The chosen rows that are not wanted, among the ids looked at. */
  function Unwanted(q: Request, chosen: map<string, nat>, looked: set<string>): set<nat> {
    set id | id in looked && id in chosen && id !in q.wanted :: chosen[id]
  }

  function Updated(before: Table, q: Request, chosen: map<string, nat>, done: set<string>, r: nat): Entry
    requires r in before.rows
  {
    var e := before.rows[r];
    if e.id in done && e.id in q.wanted && e.id in chosen && chosen[e.id] == r
    then e.(card := Merged(e.card, Refreshed(q, e.id))) else e
  }

  /** The wanted ids in done have been written, and the rows in gone deleted. A row that shares its id
      with the chosen one is never written. */
  ghost predicate Underway(before: Table, t: Table, q: Request, chosen: map<string, nat>, created: map<string, nat>,
                           done: set<string>, gone: set<nat>)
  {
    && (forall r | r in t.rows :: r < t.next)
    && created.Keys == done - chosen.Keys && done <= q.wanted.Keys
    && t.rows.Keys == before.rows.Keys - gone + created.Values
    && (forall r | r in before.rows && r in t.rows :: t.rows[r] == Updated(before, q, chosen, done, r))
    && (forall id | id in created ::
          created[id] !in before.rows && created[id] in t.rows
          && t.rows[created[id]] == NewRow(q, id))
    && (forall a, b | a in created && b in created && created[a] == created[b] :: a == b)
  }

  ghost predicate Reconciled(before: Table, after: Table, q: Request, chosen: map<string, nat>,
                             created: map<string, nat>)
  {
    && Chosen(before, q.userID, chosen)
    && Underway(before, after, q, chosen, created, q.wanted.Keys, Unwanted(q, chosen, chosen.Keys))
  }

  ghost predicate UniqueIDs(t: Table, userID: nat) {
    forall a, b | a in PersonalRows(t, userID) && b in PersonalRows(t, userID) && t.rows[a].id == t.rows[b].id :: a == b
  }

  predicate HasID(t: Table, userID: nat, id: string) {
    exists r :: r in PersonalRows(t, userID) && t.rows[r].id == id
  }

  /** Exactly the given ids, one row each. */
  ghost predicate Holds(t: Table, userID: nat, ids: set<string>) {
    && UniqueIDs(t, userID)
    && forall id :: id in ids <==> HasID(t, userID, id)
  }

  lemma UnwantedStays(q: Request, chosen: map<string, nat>, looked: set<string>, id: string)
    requires id in looked && id in chosen && id !in q.wanted
    ensures chosen[id] in Unwanted(q, chosen, looked)
  {
  }

  /** A stored row that another row of the same id hides is kept as it is, wanted or not. */
  lemma HiddenRowsRemain(before: Table, after: Table, q: Request, chosen: map<string, nat>, created: map<string, nat>,
                         r: nat)
    requires Reconciled(before, after, q, chosen, created)
    requires r in PersonalRows(before, q.userID) && chosen[before.rows[r].id] != r
    ensures r in PersonalRows(after, q.userID) && after.rows[r] == before.rows[r]
  {
    forall id | id in chosen
      ensures chosen[id] != r
    {
      assert before.rows[chosen[id]].id == id;
    }
    assert r !in Unwanted(q, chosen, chosen.Keys);
  }

  /** Where every row of the user after the sync comes from. */
  lemma RowAfter(before: Table, after: Table, q: Request, chosen: map<string, nat>, created: map<string, nat>, r: nat)
    returns (id: string)
    requires Reconciled(before, after, q, chosen, created) && r in PersonalRows(after, q.userID)
    requires UniqueIDs(before, q.userID)
    ensures id in q.wanted
    ensures (id in chosen && chosen[id] == r && after.rows[r].id == id)
            || (id in created && created[id] == r && after.rows[r].id == StoredID(id))
  {
    if r in before.rows {
      id := before.rows[r].id;
      assert r in PersonalRows(before, q.userID) && chosen[id] == r;
      if id !in q.wanted {
        UnwantedStays(q, chosen, chosen.Keys, id);
      }
    } else {
      assert r in after.rows.Keys;
      id :| id in created && created[id] == r;
    }
  }

  lemma ChosenAfter(before: Table, after: Table, q: Request, chosen: map<string, nat>, created: map<string, nat>,
                    id: string)
    requires Reconciled(before, after, q, chosen, created) && id in chosen && id in q.wanted
    ensures chosen[id] in PersonalRows(after, q.userID) && after.rows[chosen[id]].id == id
    ensures after.rows[chosen[id]].card == Merged(before.rows[chosen[id]].card, Refreshed(q, id))
  {
    forall x | x in chosen && x !in q.wanted
      ensures chosen[x] != chosen[id]
    {
      assert before.rows[chosen[x]].id == x && before.rows[chosen[id]].id == id;
    }
    assert chosen[id] !in Unwanted(q, chosen, chosen.Keys);
  }

  /** What an update leaves in a column: what was sent, or what was stored if nothing was. */
  predicate Overrides(after: string, sent: string, stored: string) {
    if sent == "" then after == stored else after == sent
  }

  /** The stored row of a wanted id after the sync, column by column: the verified inventory stands in
      for what was sent, flags are only ever switched on, and its place in the book stays. */
  lemma UpdatedColumns(before: Table, after: Table, q: Request, chosen: map<string, nat>, created: map<string, nat>,
                       id: string)
    requires Reconciled(before, after, q, chosen, created) && id in chosen && id in q.wanted
    ensures chosen[id] in before.rows && chosen[id] in after.rows
    ensures after.rows[chosen[id]] == before.rows[chosen[id]].(card := after.rows[chosen[id]].card)
    ensures var was, sent, now := before.rows[chosen[id]].card, q.wanted[id], after.rows[chosen[id]].card;
      && Overrides(now.alias, sent.alias, was.alias) && Overrides(now.password, sent.password, was.password)
      && Overrides(now.tags, sent.tags, was.tags) && Overrides(now.hash, sent.hash, was.hash)
      && Overrides(now.rdpPort, sent.rdpPort, was.rdpPort) && Overrides(now.loginName, sent.loginName, was.loginName)
      && Overrides(now.rdpUsername, sent.rdpUsername, was.rdpUsername)
      && (now.forceAlwaysRelay <==> was.forceAlwaysRelay || sent.forceAlwaysRelay)
      && (now.online <==> was.online || sent.online) && (now.sameServer <==> was.sameServer || sent.sameServer)
    ensures var was, sent, now := before.rows[chosen[id]].card, q.wanted[id], after.rows[chosen[id]].card;
      var known := q.peers.verified(id);
      && Overrides(now.username, if known.Some? then known.value.username else sent.username, was.username)
      && Overrides(now.hostname, if known.Some? then known.value.hostname else sent.hostname, was.hostname)
      && Overrides(now.platform, if known.Some? then known.value.platform else sent.platform, was.platform)
  {
    ChosenAfter(before, after, q, chosen, created, id);
  }

  /** The row of a wanted id that had none: what was sent, with the inventory of a verified device, or
      for want of one that of the user's own device if a column of it was left open. */
  lemma NewEntryColumns(before: Table, after: Table, q: Request, chosen: map<string, nat>, created: map<string, nat>,
                        id: string)
    requires Reconciled(before, after, q, chosen, created) && id in q.wanted && id !in chosen
    ensures id in created && created[id] !in before.rows && created[id] in after.rows
    ensures var e, sent := after.rows[created[id]], q.wanted[id];
      var gap := sent.platform == "" || sent.username == "" || sent.hostname == "";
      var known := if q.peers.verified(id).Some? then q.peers.verified(id) else if gap then q.peers.owned(id) else None;
      && e.userID == q.userID && e.collectionID == 0 && e.id == (if id == "" then "0" else id)
      && e.card.platform == (if known.Some? then known.value.platform else sent.platform)
      && e.card.username == (if known.Some? then known.value.username else sent.username)
      && e.card.hostname == (if known.Some? then known.value.hostname else sent.hostname)
      && e.card.(platform := sent.platform, username := sent.username, hostname := sent.hostname) == sent
  {
  }

  /** Of the uploads with one normalized id, the last one's card is wanted. */
  lemma {:induction false} LastUploadIsWanted(uploads: seq<Upload>, i: nat)
    requires i < |uploads|
    requires forall j | i < j < |uploads| :: Normalize(uploads[j].id) != Normalize(uploads[i].id)
    ensures Normalize(uploads[i].id) in Wanted(uploads)
    ensures Wanted(uploads)[Normalize(uploads[i].id)] == uploads[i].card
    decreases |uploads|
  {
    if i < |uploads| - 1 {
      LastUploadIsWanted(uploads[..|uploads| - 1], i);
    }
  }

  /** And nothing is wanted that was not uploaded. */
  lemma {:induction false} WantedWasUploaded(uploads: seq<Upload>, id: string) returns (i: nat)
    requires id in Wanted(uploads)
    ensures i < |uploads| && Normalize(uploads[i].id) == id
  {
    i := |uploads| - 1;
    if Normalize(uploads[i].id) != id {
      i := WantedWasUploaded(uploads[..|uploads| - 1], id);
    }
  }

  /** The stored ids are unique, and no new entry has an empty id. */
  ghost predicate Clean(before: Table, q: Request, chosen: map<string, nat>) {
    UniqueIDs(before, q.userID) && ("" in q.wanted ==> "" in chosen)
  }

  lemma CleanHolds(before: Table, after: Table, q: Request, chosen: map<string, nat>, created: map<string, nat>)
    requires Reconciled(before, after, q, chosen, created) && Clean(before, q, chosen)
    ensures Holds(after, q.userID, q.wanted.Keys)
  {
    forall r | r in PersonalRows(after, q.userID)
      ensures var id := after.rows[r].id;
        id in q.wanted && ((id in chosen && chosen[id] == r) || (id in created && created[id] == r))
    {
      var id := RowAfter(before, after, q, chosen, created, r);
    }
    forall id | id in q.wanted
      ensures HasID(after, q.userID, id)
    {
      if id in chosen {
        ChosenAfter(before, after, q, chosen, created, id);
      } else {
        assert created[id] in PersonalRows(after, q.userID) && after.rows[created[id]].id == id;
      }
    }
  }

  lemma DuplicatesPreventHolds(before: Table, after: Table, q: Request, chosen: map<string, nat>,
                               created: map<string, nat>, r: nat)
    requires Reconciled(before, after, q, chosen, created)
    requires r in PersonalRows(before, q.userID) && chosen[before.rows[r].id] != r
    ensures !Holds(after, q.userID, q.wanted.Keys)
  {
    var id := before.rows[r].id;
    HiddenRowsRemain(before, after, q, chosen, created, r);
    if id in q.wanted {
      ChosenAfter(before, after, q, chosen, created, id);
    } else {
      assert HasID(after, q.userID, id);
    }
  }

  /** After a sync the address book holds exactly the wanted ids, one row each, if and only if the
      stored ids were unique and no entry was created under an empty id. */
  lemma HoldsExactlyWhenClean(before: Table, after: Table, q: Request, chosen: map<string, nat>,
                              created: map<string, nat>)
    requires Reconciled(before, after, q, chosen, created)
    ensures Holds(after, q.userID, q.wanted.Keys) <==> Clean(before, q, chosen)
  {
    if Clean(before, q, chosen) {
      CleanHolds(before, after, q, chosen, created);
    } else if UniqueIDs(before, q.userID) {
      forall r | r in PersonalRows(after, q.userID)
        ensures after.rows[r].id != ""
      {
        var id := RowAfter(before, after, q, chosen, created, r);
      }
      assert !HasID(after, q.userID, "");
    } else {
      var a, b :| a in PersonalRows(before, q.userID) && b in PersonalRows(before, q.userID)
                  && before.rows[a].id == before.rows[b].id && a != b;
      var hidden := if chosen[before.rows[a].id] == a then b else a;
      DuplicatesPreventHolds(before, after, q, chosen, created, hidden);
    }
  }

  /** Rows of other users, and of shared collections, are untouched. */
  lemma OthersUntouched(before: Table, after: Table, q: Request, chosen: map<string, nat>, created: map<string, nat>,
                        r: nat)
    requires Reconciled(before, after, q, chosen, created) && r in before.rows
    requires before.rows[r].userID != q.userID || before.rows[r].collectionID != 0
    ensures r in after.rows && after.rows[r] == before.rows[r]
  {
    assert r !in Unwanted(q, chosen, chosen.Keys);
  }

  /** Over a book that already holds the wanted ids, a sync creates and deletes nothing. */
  lemma HoldingSyncOnlyUpdates(b: Table, c: Table, q: Request, chosen: map<string, nat>, created: map<string, nat>)
    requires Holds(b, q.userID, q.wanted.Keys) && Reconciled(b, c, q, chosen, created)
    ensures c.rows.Keys == b.rows.Keys && chosen.Keys == q.wanted.Keys
  {
    forall id | id in q.wanted
      ensures id in chosen
    {
      assert HasID(b, q.userID, id);
    }
    forall id | id in chosen
      ensures id in q.wanted
    {
      assert HasID(b, q.userID, id);
    }
    assert created.Keys == {} && created.Values == {};
    assert Unwanted(q, chosen, chosen.Keys) == {};
  }

  lemma MergedTwice(stored: Card, sent: Card)
    ensures Merged(Merged(stored, sent), sent) == Merged(stored, sent)
  {
  }

  lemma HeldRowIsMerged(a: Table, b: Table, q: Request, chosen: map<string, nat>, created: map<string, nat>, r: nat)
    requires Holds(a, q.userID, q.wanted.Keys) && Reconciled(a, b, q, chosen, created)
    requires r in PersonalRows(b, q.userID)
    ensures b.rows[r].id in q.wanted
    ensures Merged(b.rows[r].card, Refreshed(q, b.rows[r].id)) == b.rows[r].card
  {
    HoldingSyncOnlyUpdates(a, b, q, chosen, created);
    var id := RowAfter(a, b, q, chosen, created, r);
    ChosenAfter(a, b, q, chosen, created, id);
    MergedTwice(a.rows[chosen[id]].card, Refreshed(q, id));
  }

  /** Once the book holds the wanted ids and every entry has been updated once, sending the same list
      again changes no row. */
  lemma RepeatedSyncSettles(a: Table, b: Table, c: Table, q: Request, first: map<string, nat>,
                            firstNew: map<string, nat>, again: map<string, nat>, againNew: map<string, nat>)
    requires Holds(a, q.userID, q.wanted.Keys)
    requires Reconciled(a, b, q, first, firstNew) && Reconciled(b, c, q, again, againNew)
    ensures c.rows == b.rows
  {
    HoldingSyncOnlyUpdates(a, b, q, first, firstNew);
    HoldsExactlyWhenClean(a, b, q, first, firstNew);
    HoldingSyncOnlyUpdates(b, c, q, again, againNew);
    forall r | r in b.rows
      ensures c.rows[r] == b.rows[r]
    {
      if r in PersonalRows(b, q.userID) {
        HeldRowIsMerged(a, b, q, first, firstNew, r);
      } else if b.rows[r].id in again {
        assert again[b.rows[r].id] in PersonalRows(b, q.userID);
      }
    }
  }

  /** An entry just created stays the same in the next sync exactly when no own device's inventory
      stands in it against something else the client sends. */
  lemma NewEntrySettlesExactly(q: Request, id: string)
    requires id in q.wanted
    ensures Merged(Created(q, id), Refreshed(q, id)) == Created(q, id) <==>
      var card := q.wanted[id];
      (q.peers.verified(id).None? && (card.platform == "" || card.username == "" || card.hostname == "")
       && q.peers.owned(id).Some? ==>
         var own := q.peers.owned(id).value;
         && (card.platform == "" || card.platform == own.platform)
         && (card.username == "" || card.username == own.username)
         && (card.hostname == "" || card.hostname == own.hostname))
  {
    var created, merged := Created(q, id), Merged(Created(q, id), Refreshed(q, id));
    assert merged == created <==>
      && merged.platform == created.platform && merged.username == created.username
      && merged.hostname == created.hostname;
  }

  lemma UpdateStays(before: Table, t: Table, q: Request, chosen: map<string, nat>, created: map<string, nat>,
                    done: set<string>, id: string)
    requires Chosen(before, q.userID, chosen) && Underway(before, t, q, chosen, created, done, {})
    requires id in q.wanted && id !in done && id in chosen
    ensures chosen[id] in t.rows && t.rows[chosen[id]] == before.rows[chosen[id]]
    ensures
      var row := t.rows[chosen[id]].(card := Merged(t.rows[chosen[id]].card, Refreshed(q, id)));
      Underway(before, t.(rows := t.rows[chosen[id] := row]), q, chosen, created, done + {id}, {})
  {
  }

  lemma CreatedStays(before: Table, t: Table, q: Request, created: map<string, nat>, id: string)
    requires id in q.wanted && id !in created && t.next !in t.rows && t.next !in before.rows
    requires forall x | x in created ::
      x in q.wanted && created[x] !in before.rows && created[x] in t.rows && t.rows[created[x]] == NewRow(q, x)
    requires forall a, b | a in created && b in created && created[a] == created[b] :: a == b
    ensures var now, rows := created[id := t.next], t.rows[t.next := NewRow(q, id)];
      && (forall x | x in now :: now[x] !in before.rows && now[x] in rows && rows[now[x]] == NewRow(q, x))
      && (forall a, b | a in now && b in now && now[a] == now[b] :: a == b)
  {
  }

  lemma CreateKeepsStored(before: Table, t: Table, q: Request, chosen: map<string, nat>, done: set<string>, id: string)
    requires id !in chosen && t.next !in before.rows && id in q.wanted
    requires forall r | r in before.rows && r in t.rows :: t.rows[r] == Updated(before, q, chosen, done, r)
    ensures var rows := t.rows[t.next := NewRow(q, id)];
      forall r | r in before.rows && r in rows :: rows[r] == Updated(before, q, chosen, done + {id}, r)
  {
  }

  lemma CreateStays(before: Table, t: Table, q: Request, chosen: map<string, nat>, created: map<string, nat>,
                    done: set<string>, id: string)
    requires Underway(before, t, q, chosen, created, done, {})
    requires id in q.wanted && id !in done && id !in chosen
    ensures
      Underway(before, Table(t.rows[t.next := NewRow(q, id)], t.next + 1), q, chosen, created[id := t.next],
               done + {id}, {})
  {
    var after := t.rows[t.next := NewRow(q, id)];
    var now := created[id := t.next];
    assert t.next !in t.rows.Keys && t.next !in before.rows;
    CreatedStays(before, t, q, created, id);
    CreateKeepsStored(before, t, q, chosen, done, id);
    assert after.Keys == before.rows.Keys - {} + now.Values by {
      ValuesGrow(created, id, t.next);
    }
    assert now.Keys == done + {id} - chosen.Keys;
  }

  lemma DeletionStays(before: Table, t: Table, q: Request, chosen: map<string, nat>, created: map<string, nat>)
    requires Chosen(before, q.userID, chosen) && Underway(before, t, q, chosen, created, q.wanted.Keys, {})
    ensures var gone := Unwanted(q, chosen, chosen.Keys);
      Underway(before, t.(rows := t.rows - gone), q, chosen, created, q.wanted.Keys, gone)
  {
    var gone := Unwanted(q, chosen, chosen.Keys);
    forall r | r in gone
      ensures r in before.rows && r !in created.Values
    {
    }
  }
}

/** The address-book service: the sync as statements on the table. */
module AddressBooks {
  import opened Identities
  import opened AddressBookSpec

  class AddressBookService {
    var rows: map<nat, Entry>
    var next: nat

    ghost function Contents(): Table
      reads this
    {
      Table(rows, next)
    }

    constructor (t: Table)
      ensures Contents() == t
    {
      rows, next := t.rows, t.next;
    }

    static method wantedByID(uploads: seq<Upload>) returns (byID: map<string, Card>)
      ensures byID == Wanted(uploads)
    {
      byID := map[];
      for i := 0 to |uploads|
        invariant byID == Wanted(uploads[..i])
      {
        assert uploads[..i + 1][..i] == uploads[..i];
        byID := byID[Normalize(uploads[i].id) := uploads[i].card];
      }
      assert uploads[..|uploads|] == uploads;
    }

    /** Rows come in no particular order, and a later one with the same id takes the place. */
    method storedByID(userID: nat) returns (byID: map<string, nat>)
      ensures Chosen(Contents(), userID, byID)
    {
      byID := map[];
      var all := set r | r in rows && Personal(rows[r], userID);
      var rest := all;
      while rest != {}
        invariant rest <= all
        invariant forall id | id in byID :: byID[id] in all && rows[byID[id]].id == id
        invariant forall r | r in all - rest :: rows[r].id in byID
        decreases rest
      {
        var r :| r in rest;
        byID := byID[rows[r].id := r];
        rest := rest - {r};
      }
      assert forall r | r in PersonalRows(Contents(), userID) :: r in all - rest;
    }

    /** One wanted entry: enriched, then created or merged into its row. */
    method put(q: Request, id: string, chosen: map<string, nat>, ghost start: Table, ghost created: map<string, nat>,
               ghost done: set<string>)
      returns (ghost nowCreated: map<string, nat>)
      requires Chosen(start, q.userID, chosen) && Underway(start, Contents(), q, chosen, created, done, {})
      requires id in q.wanted && id !in done
      modifies this
      ensures Underway(start, Contents(), q, chosen, nowCreated, done + {id}, {})
    {
      nowCreated := created;
      var ab := q.wanted[id];
      var peer := q.peers.verified(id);
      var enriched := peer.Some?;
      if enriched {
        ab := ab.(platform := peer.value.platform, username := peer.value.username, hostname := peer.value.hostname);
      }
      if id !in chosen {
        if !enriched && (ab.platform == "" || ab.username == "" || ab.hostname == "") {
          var own := q.peers.owned(id);
          if own.Some? {
            ab := ab.(platform := own.value.platform, username := own.value.username, hostname := own.value.hostname);
          }
        }
        CreateStays(start, Contents(), q, chosen, created, done, id);
        nowCreated := created[id := next];
        rows := rows[next := Entry(if id == "" then "0" else id, q.userID, 0, ab)];
        next := next + 1;
      } else {
        UpdateStays(start, Contents(), q, chosen, created, done, id);
        var row := rows[chosen[id]];
        rows := rows[chosen[id] := row.(card := Merged(row.card, ab))];
      }
    }

    method putWanted(q: Request, chosen: map<string, nat>)
      returns (ghost created: map<string, nat>)
      requires Chosen(Contents(), q.userID, chosen) && forall r | r in rows :: r < next
      modifies this
      ensures Underway(old(Contents()), Contents(), q, chosen, created, q.wanted.Keys, {})
    {
      ghost var start := Contents();
      created := map[];
      ghost var done: set<string> := {};
      var todo := q.wanted.Keys;
      while todo != {}
        invariant done == q.wanted.Keys - todo && todo <= q.wanted.Keys
        invariant Underway(start, Contents(), q, chosen, created, done, {})
        decreases todo
      {
        var id :| id in todo;
        created := put(q, id, chosen, start, created, done);
        done, todo := done + {id}, todo - {id};
      }
      assert done == q.wanted.Keys;
    }

    method deleteUnwanted(q: Request, chosen: map<string, nat>)
      modifies this`rows
      ensures rows == old(rows) - Unwanted(q, chosen, chosen.Keys)
    {
      ghost var looked: set<string> := {};
      var rest := chosen.Keys;
      while rest != {}
        invariant looked == chosen.Keys - rest && rest <= chosen.Keys
        invariant rows == old(rows) - Unwanted(q, chosen, looked)
        decreases rest
      {
        var id :| id in rest;
        assert Unwanted(q, chosen, looked + {id}) ==
               Unwanted(q, chosen, looked) + if id in q.wanted then {} else {chosen[id]};
        if id !in q.wanted {
          rows := rows - {chosen[id]};
        }
        looked, rest := looked + {id}, rest - {id};
      }
      assert looked == chosen.Keys;
    }

    method updateAddressBook(uploads: seq<Upload>, userID: nat, peers: Peers)
      returns (ghost chosen: map<string, nat>, ghost created: map<string, nat>)
      requires forall r | r in rows :: r < next
      modifies this
      ensures Reconciled(old(Contents()), Contents(), Request(userID, Wanted(uploads), peers), chosen, created)
    {
      ghost var start := Contents();
      var wanted := wantedByID(uploads);
      var stored := storedByID(userID);
      var q := Request(userID, wanted, peers);
      created := putWanted(q, stored);
      DeletionStays(start, Contents(), q, stored, created);
      deleteUnwanted(q, stored);
      chosen := stored;
    }
  }
}
