/** Synchronising a user's personal tags with the set a client sends. */
module TagSync {
  import opened Maps

  datatype Tag = Tag(name: string, userID: nat, color: nat, collectionID: nat)

  datatype Table = Table(rows: map<nat, Tag>, next: nat)

  predicate Personal(t: Tag, userID: nat) {
    t.userID == userID && t.collectionID == 0
  }

  /** The ids of the user's personal tags. */
  function PersonalRows(t: Table, userID: nat): set<nat> {
    set r | r in t.rows && Personal(t.rows[r], userID)
  }

  /** The personal tags are exactly the requested ones, one row each; every other row is as before; no
      row is replaced that could be kept, and a kept row changes in its colour alone. */
  ghost predicate Synced(before: Table, after: Table, userID: nat, tags: map<string, nat>) {
    && (forall r | r in PersonalRows(after, userID) ::
          after.rows[r].name in tags && after.rows[r].color == tags[after.rows[r].name])
    && (forall a, b | a in PersonalRows(after, userID) && b in PersonalRows(after, userID)
                      && after.rows[a].name == after.rows[b].name :: a == b)
    && (forall name | name in tags :: Named(after, userID, name))
    && (forall r :: Other(before, userID, r) <==> Other(after, userID, r))
    && (forall r | Other(before, userID, r) :: after.rows[r] == before.rows[r])
    && (forall r | r in PersonalRows(after, userID) && r in before.rows ::
          before.rows[r].(color := after.rows[r].color) == after.rows[r])
    && (forall r | r in PersonalRows(after, userID) && r !in before.rows ::
          r >= before.next && !Named(before, userID, after.rows[r].name))
  }

  ghost predicate Named(t: Table, userID: nat, name: string) {
    exists r :: r in PersonalRows(t, userID) && t.rows[r].name == name
  }

  predicate Other(t: Table, userID: nat, r: nat) {
    r in t.rows && !Personal(t.rows[r], userID)
  }

  /** Row ids come from the counter. */
  ghost predicate Counted(t: Table) {
    forall r | r in t.rows :: r < t.next
  }

  /** The rows no pass touches. */
  function OtherRows(t: Table, userID: nat): set<nat> {
    set r | r in t.rows && !Personal(t.rows[r], userID)
  }

  /** The row that serves a requested name: a stored one in its new colour, or a new one for a name
      that no stored row had. */
  ghost predicate Serves(before: Table, t: Table, userID: nat, tags: map<string, nat>, name: string, r: nat) {
    && name in tags && r in t.rows
    && if r in before.rows
       then before.rows[r].name == name && Personal(before.rows[r], userID)
            && t.rows[r] == before.rows[r].(color := tags[name])
       else r >= before.next && !Named(before, userID, name) && t.rows[r] == Tag(name, userID, tags[name], 0)
  }

  /** Midway: rest has not been looked at, pending has no row yet, and every other name is served. */
  ghost predicate Underway(before: Table, t: Table, userID: nat, tags: map<string, nat>, rest: set<nat>,
                           pending: map<string, nat>, served: map<string, nat>)
  {
    && before.next <= t.next && (forall r | r in t.rows :: r < t.next)
    && rest <= PersonalRows(before, userID)
    && served.Keys == tags.Keys - pending.Keys
    && (forall name | name in pending :: name in tags && pending[name] == tags[name])
    && t.rows.Keys == OtherRows(before, userID) + rest + served.Values
    && (forall r | r in OtherRows(before, userID) + rest :: t.rows[r] == before.rows[r])
    && (forall name | name in served :: Serves(before, t, userID, tags, name, served[name]) && served[name] !in rest)
    && (forall r | r in PersonalRows(before, userID) - rest :: before.rows[r].name !in pending)
  }

  lemma DropStays(before: Table, t: Table, userID: nat, tags: map<string, nat>, rest: set<nat>,
                  pending: map<string, nat>, served: map<string, nat>, r: nat)
    requires Underway(before, t, userID, tags, rest, pending, served) && r in rest
    requires before.rows[r].name !in pending
    ensures Underway(before, t.(rows := t.rows - {r}), userID, tags, rest - {r}, pending, served)
  {
    assert r !in served.Values;
  }

  lemma KeepStays(before: Table, t: Table, userID: nat, tags: map<string, nat>, rest: set<nat>,
                  pending: map<string, nat>, served: map<string, nat>, r: nat)
    requires Underway(before, t, userID, tags, rest, pending, served) && r in rest
    requires before.rows[r].name in pending
    ensures var name := before.rows[r].name;
      Underway(before, t.(rows := t.rows[r := t.rows[r].(color := pending[name])]), userID, tags, rest - {r},
               pending - {name}, served[name := r])
  {
    var name := before.rows[r].name;
    ValuesGrow(served, name, r);
    assert r in t.rows;
  }

  lemma CreateStays(before: Table, t: Table, userID: nat, tags: map<string, nat>, pending: map<string, nat>,
                    served: map<string, nat>, name: string)
    requires Counted(before) && Underway(before, t, userID, tags, {}, pending, served) && name in pending
    ensures Underway(before, Table(t.rows[t.next := Tag(name, userID, pending[name], 0)], t.next + 1), userID, tags, {},
                     pending - {name}, served[name := t.next])
  {
    ValuesGrow(served, name, t.next);
    assert forall r | r in PersonalRows(before, userID) :: r in PersonalRows(before, userID) - {};
  }

  /** At the end the user's rows are the serving ones. */
  lemma ServedRow(before: Table, t: Table, userID: nat, tags: map<string, nat>, served: map<string, nat>, r: nat)
    returns (name: string)
    requires Underway(before, t, userID, tags, {}, map[], served) && r in PersonalRows(t, userID)
    ensures name in served && served[name] == r && t.rows[r].name == name && t.rows[r].color == tags[name]
    ensures Serves(before, t, userID, tags, name, r)
  {
    assert r in t.rows.Keys && r !in OtherRows(before, userID);
    name :| name in served && served[name] == r;
  }

  lemma OthersStay(before: Table, t: Table, userID: nat, tags: map<string, nat>, served: map<string, nat>, r: nat)
    requires Underway(before, t, userID, tags, {}, map[], served)
    ensures Other(before, userID, r) <==> Other(t, userID, r)
    ensures Other(before, userID, r) ==> t.rows[r] == before.rows[r]
  {
    if Other(before, userID, r) {
      assert r in OtherRows(before, userID) + {};
    } else if r in t.rows && r !in OtherRows(before, userID) {
      var name :| name in served && served[name] == r;
      assert Serves(before, t, userID, tags, name, r);
    }
  }

  lemma DoneIsSynced(before: Table, t: Table, userID: nat, tags: map<string, nat>, served: map<string, nat>)
    requires Underway(before, t, userID, tags, {}, map[], served)
    ensures Synced(before, t, userID, tags)
  {
    forall r | r in PersonalRows(t, userID)
      ensures t.rows[r].name in served && served[t.rows[r].name] == r
      ensures Serves(before, t, userID, tags, t.rows[r].name, r)
    {
      var name := ServedRow(before, t, userID, tags, served, r);
    }
    forall name | name in tags
      ensures Named(t, userID, name)
    {
      assert Serves(before, t, userID, tags, name, served[name]);
      assert served[name] in PersonalRows(t, userID);
    }
    forall r
      ensures Other(before, userID, r) <==> Other(t, userID, r)
      ensures Other(before, userID, r) ==> t.rows[r] == before.rows[r]
    {
      OthersStay(before, t, userID, tags, served, r);
    }
  }

  class TagService {
    var rows: map<nat, Tag>
    var next: nat

    ghost function Contents(): Table
      reads this
    {
      Table(rows, next)
    }

    constructor (t: Table)
      ensures Contents() == t
    {
      rows, next := t.rows, t.next;
    }

    /** One stored tag: it goes when it is not requested, or no longer; otherwise it serves its name. */
    method settle(r: nat, userID: nat, tags: map<string, nat>, wanted: map<string, nat>, ghost start: Table,
                  ghost rest: set<nat>, ghost served: map<string, nat>)
      returns (pending: map<string, nat>, ghost serving: map<string, nat>)
      requires Underway(start, Contents(), userID, tags, rest, wanted, served) && r in rest
      modifies this`rows
      ensures Underway(start, Contents(), userID, tags, rest - {r}, pending, serving)
    {
      pending, serving := wanted, served;
      var t := rows[r];
      if t.name !in pending {
        DropStays(start, Contents(), userID, tags, rest, pending, served, r);
        rows := rows - {r};
      } else {
        KeepStays(start, Contents(), userID, tags, rest, pending, served, r);
        if pending[t.name] != t.color {
          rows := rows[r := t.(color := pending[t.name])];
        } else {
          assert rows == rows[r := t.(color := pending[t.name])];
        }
        pending := pending - {t.name};
        serving := served[t.name := r];
      }
    }

    /** The pass over the stored tags leaves pending the names that still need a row. */
    method keepRequested(userID: nat, tags: map<string, nat>)
      returns (pending: map<string, nat>, ghost served: map<string, nat>)
      requires Counted(Contents())
      modifies this`rows
      ensures Underway(old(Contents()), Contents(), userID, tags, {}, pending, served)
    {
      pending := tags;
      served := map[];
      ghost var start := Contents();
      var rest := set r | r in rows && Personal(rows[r], userID);
      while rest != {}
        invariant Underway(start, Contents(), userID, tags, rest, pending, served)
        decreases rest
      {
        var r :| r in rest;
        pending, served := settle(r, userID, tags, pending, start, rest, served);
        rest := rest - {r};
      }
    }

    method createPending(userID: nat, tags: map<string, nat>, missing: map<string, nat>, ghost start: Table,
                         ghost served: map<string, nat>)
      returns (ghost serving: map<string, nat>)
      requires Counted(start) && Underway(start, Contents(), userID, tags, {}, missing, served)
      modifies this
      ensures Underway(start, Contents(), userID, tags, {}, map[], serving)
    {
      var pending := missing;
      serving := served;
      while pending.Keys != {}
        invariant Underway(start, Contents(), userID, tags, {}, pending, serving)
        decreases pending.Keys
      {
        var name :| name in pending;
        CreateStays(start, Contents(), userID, tags, pending, serving, name);
        rows := rows[next := Tag(name, userID, pending[name], 0)];
        serving := serving[name := next];
        next := next + 1;
        pending := pending - {name};
      }
      assert pending == map[];
    }

    method updateTags(userID: nat, tags: map<string, nat>)
      requires Counted(Contents())
      modifies this
      ensures Counted(Contents())
      ensures Synced(old(Contents()), Contents(), userID, tags)
      ensures forall r | r in old(rows) && (old(rows)[r].userID != userID || old(rows)[r].collectionID != 0) ::
        r in rows && rows[r] == old(rows)[r]
      ensures forall r | r in rows && rows[r].userID == userID && rows[r].collectionID == 0 ::
        rows[r].name in tags && rows[r].color == tags[rows[r].name]
    {
      ghost var start := Contents();
      var pending: map<string, nat>;
      ghost var served: map<string, nat>;
      pending, served := keepRequested(userID, tags);
      served := createPending(userID, tags, pending, start, served);
      DoneIsSynced(start, Contents(), userID, tags, served);
      assert forall r | r in start.rows && !Personal(start.rows[r], userID) :: Other(start, userID, r);
      assert forall r | r in rows && Personal(rows[r], userID) :: r in PersonalRows(Contents(), userID);
    }
  }

  /** Sending the same set again changes no row at all. */
  lemma SyncingAgainChangesNothing(a: Table, b: Table, c: Table, userID: nat, tags: map<string, nat>)
    requires Counted(b) && Synced(a, b, userID, tags) && Synced(b, c, userID, tags)
    ensures c.rows == b.rows
  {
    forall r | r in PersonalRows(c, userID)
      ensures r in b.rows
    {
      assert Named(b, userID, c.rows[r].name);
    }
    forall r | r in PersonalRows(b, userID)
      ensures r in c.rows
    {
      var name := b.rows[r].name;
      assert Named(c, userID, name);
      var x :| x in PersonalRows(c, userID) && c.rows[x].name == name;
      assert x in b.rows && b.rows[x].name == name;
      assert x in PersonalRows(b, userID);
    }
    assert forall r | r in b.rows :: Other(b, userID, r) || r in PersonalRows(b, userID);
    assert forall r | r in c.rows :: Other(c, userID, r) || r in PersonalRows(c, userID);
    forall r | r in b.rows
      ensures r in c.rows && c.rows[r] == b.rows[r]
    {
      if !Other(b, userID, r) {
        assert r in PersonalRows(b, userID) && r in c.rows;
        assert !Other(c, userID, r);
        assert r in PersonalRows(c, userID);
      }
    }
  }

  /** The last set sent wins whatever was stored or sent before, and another user's tags, or those in a
      shared collection, are as they were at the start. */
  lemma LastSetWins(a: Table, b: Table, c: Table, userID: nat, first: map<string, nat>, last: map<string, nat>, r: nat)
    requires Synced(a, b, userID, first) && Synced(b, c, userID, last)
    ensures Other(a, userID, r) <==> Other(c, userID, r)
    ensures Other(a, userID, r) ==> c.rows[r] == a.rows[r]
    ensures |PersonalRows(c, userID)| == |last|
  {
    NamesCount(c, userID, PersonalRows(c, userID), last.Keys);
    assert |last.Keys| == |last|;
  }

  /** One row per name: as many rows as names. */
  lemma {:induction false} NamesCount(t: Table, userID: nat, rows: set<nat>, names: set<string>)
    requires rows <= PersonalRows(t, userID)
    requires forall r | r in rows :: t.rows[r].name in names
    requires forall name | name in names :: exists r :: r in rows && t.rows[r].name == name
    requires forall a, b | a in rows && b in rows && t.rows[a].name == t.rows[b].name :: a == b
    ensures |rows| == |names|
    decreases |rows|
  {
    if rows == {} {
      assert names == {};
    } else {
      var r :| r in rows;
      var name := t.rows[r].name;
      forall other | other in names - {name}
        ensures exists x :: x in rows - {r} && t.rows[x].name == other
      {
        var x :| x in rows && t.rows[x].name == other;
        assert x in rows - {r};
      }
      NamesCount(t, userID, rows - {r}, names - {name});
    }
  }
}
