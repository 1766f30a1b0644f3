/**
  What one round of each loop over rooms and rows adds to the step its handler implements
  (backend/app/internal.py, backend/app/admin.py).
 */
module RoomLoops {
  import opened Prelude
  import opened RoomModel
  import opened RoomHandlers

  lemma EndFoundIsEndWanted(d: Directory, codes: set<Code>, now: Time)
    ensures EndByCodes(d, codes * d.rooms.Keys, now) == EndByCodes(d, codes, now)
  {
  }

  lemma PayloadCodesStep(items: seq<RoomIn>, i: nat)
    requires i < |items|
    ensures PayloadCodes(items[..i + 1]) == PayloadCodes(items[..i]) + (if items[i].code == "" then {}
        else {items[i].code})
  {
  }

  /** Once an item is rejected the whole payload is. */
  lemma {:induction false} SyncItemsStuck(d: Directory, server: ServerId, url: Url, items: seq<RoomIn>, now: Time,
                                          n: nat)
    requires n <= |items| && SyncItems(d, server, url, items[..n], now).None?
    ensures SyncItems(d, server, url, items, now).None?
    decreases |items|
  {
    if n == |items| {
      assert items[..n] == items;
    } else {
      var prefix := items[..|items| - 1];
      assert prefix[..n] == items[..n];
      SyncItemsStuck(d, server, url, prefix, now, n);
    }
  }

  /** The rows after the first entries, one id at a time. */
  lemma EnterRowsAt(members: map<RowId, Member>, code: Code, entries: seq<MemberIn>, base: RowId, id: RowId)
    requires forall i | i in members :: i < base
    ensures var after := EnterRows(members, code, entries, base);
      && (id in after <==>
          id in members || (base <= id < base + |entries| && Enters(members, code, entries, id - base)))
      && (id in members ==> after[id] == if OpenIn(members[id], code) then UpdatedRow(members[id], entries)
          else members[id])
      && (id in after && id !in members ==> after[id] == EnteredRow(code, entries[id - base]))
  {
  }

  lemma BlankEntryEntersNothing(members: map<RowId, Member>, code: Code, entries: seq<MemberIn>, base: RowId, k: nat)
    requires k < |entries| && entries[k].user == ""
    requires forall id | id in members :: id < base
    ensures EnterRows(members, code, entries[..k + 1], base) == EnterRows(members, code, entries[..k], base)
  {
    var before, after := EnterRows(members, code, entries[..k], base), EnterRows(members, code, entries[..k + 1], base);
    forall id: RowId ensures (id in before <==> id in after)
        && (id in before && id in after ==> before[id] == after[id]) {
      EntryStep(members, code, entries, base, k, id);
      if id in members {
        OtherEntryUpdates(members[id], entries, k);
      }
    }
  }

  lemma EntryStep(members: map<RowId, Member>, code: Code, entries: seq<MemberIn>, base: RowId, k: nat, id: RowId)
    requires k < |entries|
    requires forall i | i in members :: i < base
    ensures var before, after := EnterRows(members, code, entries[..k], base),
        EnterRows(members, code, entries[..k + 1], base);
      && (id in members ==> id in before && id in after
                             && before[id] == (if OpenIn(members[id], code)
                                 then UpdatedRow(members[id], entries[..k]) else members[id])
                             && after[id] == (if OpenIn(members[id], code)
                                 then UpdatedRow(members[id], entries[..k + 1]) else members[id]))
      && (id !in members && id != base + k ==>
          (id in before <==> id in after) && (id in before && id in after ==> before[id] == after[id]))
      && (id == base + k ==> id !in before && (id in after <==> Enters(members, code, entries, k))
                             && (id in after ==> after[id] == EnteredRow(code, entries[k])))
  {
    EnterRowsAt(members, code, entries[..k], base, id);
    EnterRowsAt(members, code, entries[..k + 1], base, id);
  }

  /** An entry says nothing about rows of other users. */
  lemma OtherEntryUpdates(row: Member, entries: seq<MemberIn>, k: nat)
    requires k < |entries| && (entries[k].user == "" || entries[k].user != row.user)
    ensures UpdatedRow(row, entries[..k + 1]) == UpdatedRow(row, entries[..k])
  {
    assert entries[..k + 1][..k] == entries[..k];
  }

  /** A user's next entry overwrites what the earlier ones said, and can only raise the generation. */
  lemma OwnEntryUpdates(row: Member, entries: seq<MemberIn>, k: nat)
    requires k < |entries| && entries[k].user == row.user && row.user != ""
    ensures UpdatedRow(row, entries[..k + 1]) ==
            UpdatedRow(row, entries[..k]).(role := entries[k].role, seat := entries[k].seat,
                status := entries[k].status,
              generation := Max(Max(1, UpdatedRow(row, entries[..k]).generation), Max(1, entries[k].generation)))
  {
    assert entries[..k + 1][..k] == entries[..k];
    UnnamedKeepsGeneration(row, entries[..k]);
  }

  lemma {:induction false} UnnamedKeepsGeneration(row: Member, entries: seq<MemberIn>)
    requires row.user != ""
    ensures UpdatedRow(row, entries).generation == RaisedGeneration(entries, row.user, row.generation)
  {
    if entries != [] && !Names(entries, row.user) {
      UnnamedKeepsGeneration(row, entries[..|entries| - 1]);
    }
  }

  lemma KnownEntryUpdates(members: map<RowId, Member>, code: Code, entries: seq<MemberIn>, base: RowId, k: nat,
                          id: RowId)
    requires k < |entries| && entries[k].user != "" && UniqueOpenRows(members)
    requires forall i | i in members :: i < base
    requires id in members && OpenIn(members[id], code) && members[id].user == entries[k].user
    ensures var before := EnterRows(members, code, entries[..k], base);
            id in before &&
            EnterRows(members, code, entries[..k + 1], base) ==
              before[id := before[id].(role := entries[k].role, seat := entries[k].seat, status := entries[k].status,
                generation := Max(Max(1, before[id].generation), Max(1, entries[k].generation)))]
  {
    var before, after := EnterRows(members, code, entries[..k], base), EnterRows(members, code, entries[..k + 1], base);
    EntryStep(members, code, entries, base, k, id);
    OwnEntryUpdates(members[id], entries, k);
    var updated := before[id].(role := entries[k].role, seat := entries[k].seat, status := entries[k].status,
                               generation := Max(Max(1, before[id].generation), Max(1, entries[k].generation)));
    forall i: RowId
      ensures (i in before[id := updated] <==> i in after)
          && (i in before[id := updated] && i in after ==> before[id := updated][i] == after[i])
    {
      EntryStep(members, code, entries, base, k, i);
      if i != id && i in members && OpenIn(members[i], code) {
        assert Apart(members, i, id);
        OtherEntryUpdates(members[i], entries, k);
      }
    }
  }

  lemma NewEntryEnters(members: map<RowId, Member>, code: Code, entries: seq<MemberIn>, base: RowId, k: nat)
    requires k < |entries| && entries[k].user != "" && !HasOpenRow(members, code, entries[k].user)
    requires forall i | i in members :: i < base
    ensures EnterRows(members, code, entries[..k + 1], base) ==
            EnterRows(members, code, entries[..k], base)[base + k := EnteredRow(code, entries[k])]
  {
    var before, after := EnterRows(members, code, entries[..k], base), EnterRows(members, code, entries[..k + 1], base);
    var grown := before[base + k := EnteredRow(code, entries[k])];
    forall i: RowId ensures (i in grown <==> i in after) && (i in grown && i in after ==> grown[i] == after[i]) {
      EntryStep(members, code, entries, base, k, i);
      if i in members && OpenIn(members[i], code) {
        assert HasOpenRow(members, code, members[i].user);
        OtherEntryUpdates(members[i], entries, k);
      }
    }
  }
}
