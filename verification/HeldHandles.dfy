// The entries the anchor holds across daemon restarts (crates/anchor/src/
// held_windows.rs, `Held`): holding, releasing, and handing them to a spawn.
// Duplicating a handle is a parameter that may refuse.

module HeldHandles {
  import opened Wire
  import opened HoldMessages
  import opened Handoff
  import opened HandoffProofs

  const WHAT_WINFSP_MOUNT: U8 := 1

  /** One entry: what it is, the anchor's own duplicates of the handles, and the record. */
  datatype HeldEntry = HeldEntry(what: U8, handles: seq<U64>, record: Bytes)

  /** The holdings. */
  datatype Holdings = Holdings(entries: map<U64, HeldEntry>, bound: nat, refused: U64)

  /** Duplicates the `k`th handle value of a hold out of the daemon, or refuses. */
  type Duplicate = (nat, U64) -> Option<U64>

  /** Every value duplicated, or none. */
  function Duplicated(dup: Duplicate, values: seq<U64>): Option<seq<U64>> {
    if values == [] then Some([]) else
    var front, last := Duplicated(dup, values[..|values| - 1]), dup(|values| - 1, values[|values| - 1]);
    if front.None? || last.None? then None else Some(front.value + [last.value])
  }

  /** Why a hold is refused, if it is: its shape, its id held already, the bound, then the duplication. */
  function HoldRefusal(h: Holdings, dup: Duplicate, m: Message): Option<Reason>
    requires m.Hold?
  {
    if !WellShaped(m) || m.what != WHAT_WINFSP_MOUNT || m.id in h.entries then Some(BadHold)
    else if |h.entries| >= h.bound then Some(AtBound)
    else if Duplicated(dup, m.values).None? then Some(CannotDuplicate)
    else None
  }

  /** What one message from the daemon does, and the answer to it. */
  function Applied(h: Holdings, dup: Duplicate, m: Message): (Holdings, Message) {
    match m
    case Hold(id, what, values, record) =>
      var refusal := HoldRefusal(h, dup, m);
      if refusal.Some? then (h.(refused := SatAdd(h.refused, 1)), HoldRefused(id, refusal.value))
      else (h.(entries := h.entries[id := HeldEntry(what, Duplicated(dup, values).value, record)]), Held(id))
    case Release(id) => (h.(entries := h.entries - {id}), Released(id))
    case _ => (h.(refused := SatAdd(h.refused, 1)), HoldRefused(m.id, BadHold))
  }

  /** Within the bound, and every entry within the caps. */
  ghost predicate HoldingsOk(h: Holdings) {
    && |h.entries| <= h.bound
    && forall id :: id in h.entries ==> EntryKept(h.entries[id])
  }

  predicate EntryKept(e: HeldEntry) { 1 <= |e.handles| <= MAX_HANDLES && |e.record| <= RECORD_CAP }

  /** The handles are the values' duplicates, one for one and in order. */
  ghost predicate TakenFrom(dup: Duplicate, values: seq<U64>, handles: seq<U64>) {
    |handles| == |values| && forall k :: 0 <= k < |values| ==> dup(k, values[k]) == Some(handles[k])
  }

  lemma {:induction false} DuplicatedEach(dup: Duplicate, values: seq<U64>)
    ensures Duplicated(dup, values).Some? <==> forall k :: 0 <= k < |values| ==> dup(k, values[k]).Some?
    ensures Duplicated(dup, values).Some? ==> TakenFrom(dup, values, Duplicated(dup, values).value)
  {
    if values != [] {
      var front := values[..|values| - 1];
      DuplicatedEach(dup, front);
      assert forall k :: 0 <= k < |front| ==> front[k] == values[k];
    }
  }

  /** Every message keeps the bound and the caps. */
  lemma {:induction false} AppliedKeepsBound(h: Holdings, dup: Duplicate, m: Message)
    requires HoldingsOk(h)
    ensures HoldingsOk(Applied(h, dup, m).0) && Applied(h, dup, m).0.bound == h.bound
  {
    hide Duplicated, EntryKept;
    if m.Hold? && HoldRefusal(h, dup, m).None? {
      DuplicatedEach(dup, m.values);
      assert EntryKept(HeldEntry(m.what, Duplicated(dup, m.values).value, m.record)) by {
        EntryIsKept(HeldEntry(m.what, Duplicated(dup, m.values).value, m.record));
      }
      OneMore(h.entries, m.id, HeldEntry(m.what, Duplicated(dup, m.values).value, m.record));
    } else if m.Release? {
      SubsetSize((h.entries - {m.id}).Keys, h.entries.Keys);
    }
  }

  lemma {:induction false} EntryIsKept(e: HeldEntry)
    requires 1 <= |e.handles| <= MAX_HANDLES && |e.record| <= RECORD_CAP
    ensures EntryKept(e)
  {
  }

  lemma {:induction false} OneMore(entries: map<U64, HeldEntry>, id: U64, e: HeldEntry)
    requires id !in entries
    ensures |entries[id := e]| == |entries| + 1
  {
    assert entries[id := e].Keys == entries.Keys + {id};
  }

  /** An id is gained only by the hold it answers, and lost only by a release of it. */
  lemma {:induction false} AppliedChangesOne(h: Holdings, dup: Duplicate, m: Message, id: U64)
    ensures var (after, answer) := Applied(h, dup, m);
      && answer.id == m.id
      && (answer == Held(id) ==> m.Hold? && m.id == id && id !in h.entries && id in after.entries)
      && (id in after.entries && id !in h.entries ==> answer == Held(id))
      && (id in h.entries && id !in after.entries <==> id in h.entries && m == Release(id))
      && (id in h.entries && id in after.entries ==> after.entries[id] == h.entries[id])
      && (m.Release? ==> answer == Released(m.id) && after.refused == h.refused)
      && (!m.Release? && !m.Hold? ==>
            answer == HoldRefused(m.id, BadHold) && after == h.(refused := SatAdd(h.refused, 1)))
  {
  }

  /** What makes a hold acceptable: one to three handles of a mount, a record within its cap, an id of its own, room. */
  ghost predicate Acceptable(h: Holdings, dup: Duplicate, m: Message)
    requires m.Hold?
  {
    && 1 <= |m.values| <= 3 && |m.record| <= 517 && m.what == 1
    && m.id !in h.entries && |h.entries| < h.bound
    && forall k :: 0 <= k < |m.values| ==> dup(k, m.values[k]).Some?
  }

  /**
   * A hold is answered `Held` exactly when it is acceptable, and then what is kept is what it said, at the duplicates
   * of its own handles, with every other entry as it was; refused, it leaves the entries as they were and is counted.
   */
  lemma {:induction false} HoldKeepsWhatItSays(h: Holdings, dup: Duplicate, m: Message)
    requires m.Hold?
    ensures var (after, answer) := Applied(h, dup, m);
      && (answer == Held(m.id) <==> Acceptable(h, dup, m))
      && (Acceptable(h, dup, m) ==>
            && m.id in after.entries && after.entries == h.entries[m.id := after.entries[m.id]]
            && after.entries[m.id].what == m.what && after.entries[m.id].record == m.record
            && TakenFrom(dup, m.values, after.entries[m.id].handles) && after.refused == h.refused)
      && (!Acceptable(h, dup, m) ==>
            answer.HoldRefused? && answer.id == m.id && after == h.(refused := SatAdd(h.refused, 1)))
  {
    hide Duplicated, TakenFrom;
    DuplicatedEach(dup, m.values);
  }

  /** A refusal's reason: the bound only when the hold's shape and id are good, a handle only with room too. */
  lemma {:induction false} RefusalSaysWhy(h: Holdings, dup: Duplicate, m: Message)
    requires m.Hold? && !Acceptable(h, dup, m)
    ensures Applied(h, dup, m).1.HoldRefused?
    ensures var reason := Applied(h, dup, m).1.reason;
      var shaped := 1 <= |m.values| <= 3 && |m.record| <= 517 && m.what == 1 && m.id !in h.entries;
      && (reason == BadHold <==> !shaped)
      && (reason == AtBound <==> shaped && |h.entries| >= h.bound)
      && (reason == CannotDuplicate <==> shaped && |h.entries| < h.bound)
  {
    hide Duplicated, TakenFrom;
    DuplicatedEach(dup, m.values);
  }

  // ------------------------------------------------------------------- object

  class HeldSet {
    var entries: map<U64, HeldEntry>
    const bound: nat
    var refused: U64

    ghost function View(): Holdings
      reads this
    {
      Holdings(entries, bound, refused)
    }

    constructor (b: nat)
      ensures View() == Holdings(map[], b, 0)
    {
      entries, bound, refused := map[], b, 0;
    }

    /** `hold`: on a refusal nothing of the entry is kept. */
    method HoldHandles(dup: Duplicate, m: Message) returns (answer: Message)
      requires m.Hold?
      modifies this
      ensures (View(), answer) == Applied(old(View()), dup, m)
    {
      if m.values == [] || |m.values| > MAX_HANDLES || |m.record| > RECORD_CAP || m.what != WHAT_WINFSP_MOUNT {
        refused := SatAdd(refused, 1);
        return HoldRefused(m.id, BadHold);
      }
      if m.id in entries {
        refused := SatAdd(refused, 1);
        return HoldRefused(m.id, BadHold);
      }
      if |entries| >= bound {
        refused := SatAdd(refused, 1);
        return HoldRefused(m.id, AtBound);
      }
      var handles: seq<U64> := [];
      for i := 0 to |m.values|
        invariant Duplicated(dup, m.values[..i]) == Some(handles)
        invariant View() == old(View())
      {
        assert m.values[..i + 1][..i] == m.values[..i];
        var duplicate := dup(i, m.values[i]);
        if duplicate.None? {
          refused := SatAdd(refused, 1);
          OneRefuses(dup, m.values, i);
          return HoldRefused(m.id, CannotDuplicate);
        }
        handles := handles + [duplicate.value];
      }
      assert m.values[..|m.values|] == m.values;
      entries := entries[m.id := HeldEntry(m.what, handles, m.record)];
      return Held(m.id);
    }

    /** `apply`. */
    method Apply(dup: Duplicate, m: Message) returns (answer: Message)
      modifies this
      ensures (View(), answer) == Applied(old(View()), dup, m)
    {
      match m {
        case Hold(_, _, _, _) =>
          answer := HoldHandles(dup, m);
        case Release(id) =>
          entries := entries - {id};
          answer := Released(id);
        case _ =>
          refused := SatAdd(refused, 1);
          answer := HoldRefused(m.id, BadHold);
      }
    }
  }

  lemma {:induction false} OneRefuses(dup: Duplicate, values: seq<U64>, i: nat)
    requires i < |values| && dup(i, values[i]).None?
    ensures Duplicated(dup, values).None?
    decreases |values|
  {
    if i < |values| - 1 {
      OneRefuses(dup, values[..|values| - 1], i);
    }
  }

  // ------------------------------------------------------------------ handoff

  /** The list names each entry whose id is not in `todo` once, in ascending order, as it is held. */
  ghost predicate NamesAllBut(entries: map<U64, HeldEntry>, todo: set<U64>, es: seq<HandedEntry>) {
    && (forall i, j :: 0 <= i < j < |es| ==> es[i].id < es[j].id)
    && (forall i :: 0 <= i < |es| ==> NamesOne(entries, es[i]))
    && (forall id :: id in entries && id !in todo ==> HasId(es, id))
  }

  predicate NamesOne(entries: map<U64, HeldEntry>, e: HandedEntry) {
    && e.id in entries && e.what == entries[e.id].what && e.record == entries[e.id].record
    && |e.values| == |entries[e.id].handles|
  }

  lemma {:induction false} NamesOneMore(
    entries: map<U64, HeldEntry>, todo: set<U64>, es: seq<HandedEntry>, e: HandedEntry)
    requires NamesAllBut(entries, todo, es) && NamesOne(entries, e)
    requires forall i :: 0 <= i < |es| ==> es[i].id < e.id
    ensures NamesAllBut(entries, todo - {e.id}, es + [e])
  {
    var all := es + [e];
    forall id | id in entries && id !in todo - {e.id} ensures HasId(all, id) {
      if id == e.id {
        assert all[|es|].id == id;
      } else {
        HasIdMore(es, e, id);
      }
    }
  }

  predicate HasId(es: seq<HandedEntry>, id: U64) { exists i :: 0 <= i < |es| && es[i].id == id }

  method Least(ids: set<U64>) returns (m: U64)
    requires ids != {}
    ensures m in ids && forall x :: x in ids ==> m <= x
  {
    m :| m in ids;
    var rest := ids - {m};
    while rest != {}
      invariant m in ids && rest <= ids && forall x :: x in ids && x !in rest ==> m <= x
      decreases rest
    {
      var x :| x in rest;
      if x < m {
        m := x;
      }
      rest := rest - {x};
    }
  }

  /** Makes the `n`th inheritable duplicate, of the handle given, or refuses. */
  type Give = (nat, U64) -> Option<U64>

  /** The inheritable duplicates of one entry's handles, in order, the first of them the `from`th made. */
  method DuplicateEntry(give: Give, from: nat, handles: seq<U64>) returns (r: Option<seq<U64>>)
    ensures r.Some? <==> forall k :: 0 <= k < |handles| ==> give(from + k, handles[k]).Some?
    ensures r.Some? ==> |r.value| == |handles|
    ensures r.Some? ==> forall k :: 0 <= k < |handles| ==> give(from + k, handles[k]) == Some(r.value[k])
  {
    var values: seq<U64> := [];
    for k := 0 to |handles|
      invariant |values| == k && forall j :: 0 <= j < k ==> give(from + j, handles[j]) == Some(values[j])
    {
      var d := give(from + k, handles[k]);
      if d.None? {
        return None;
      }
      values := values + [d.value];
    }
    return Some(values);
  }

  /** Handles given are all different while they are all open. */
  ghost predicate GivesFresh(give: Give) {
    forall i: nat, j: nat, h: U64, g: U64 :: i < j && give(i, h).Some? && give(j, g).Some? ==> give(i, h) != give(j, g)
  }

  /** The value was given for a duplicate of the handle. */
  ghost predicate IsDuplicate(give: Give, handle: U64, value: U64) { exists n: nat :: give(n, handle) == Some(value) }

  /** The `n`th value given. */
  ghost predicate IsGiven(give: Give, n: nat, value: U64) { exists h: U64 :: give(n, h) == Some(value) }

  /** Each entry's values are duplicates of the handles held for it, in order. */
  ghost predicate NamesDuplicates(give: Give, entries: map<U64, HeldEntry>, es: seq<HandedEntry>) {
    forall i :: 0 <= i < |es| ==>
      NamesOne(entries, es[i]) && DuplicatesOf(give, entries[es[i].id].handles, es[i].values)
  }

  ghost predicate DuplicatesOf(give: Give, handles: seq<U64>, values: seq<U64>) {
    |values| == |handles| && forall k :: 0 <= k < |values| ==> IsDuplicate(give, handles[k], values[k])
  }

  /** The handles taken so far, the channel's first, are the ones given, in order. */
  ghost predicate Taken(give: Give, channel: U64, es: seq<HandedEntry>) {
    forall k :: 0 <= k < |[channel] + Handles(es)| ==> IsGiven(give, k, ([channel] + Handles(es))[k])
  }

  /**
   * `Held::handoff`: the daemon's end of the channel and every held entry, once each, named at duplicates of their
   * own handles. When the handles given differ, the text it hands over is read back by a daemon with the same bound
   * as exactly these.
   */
  method HandOff(crc: Checksum, h: Holdings, daemonEnd: U64, give: Give)
    returns (r: Option<Bytes>, ghost channel: U64, ghost es: seq<HandedEntry>)
    requires HoldingsOk(h)
    ensures (forall k, handle :: give(k, handle).Some?) ==> r.Some?
    ensures r.Some? ==> IsDuplicate(give, daemonEnd, channel)
    ensures r.Some? ==> NamesAllBut(h.entries, {}, es) && NamesDuplicates(give, h.entries, es)
    ensures r.Some? ==> AllFit(es) && r.value == Sealed(crc, EnvBody(channel, es))
    ensures r.Some? && GivesFresh(give) && TextCap(h.bound) <= U64_MAX ==> Parses(crc, r.value, h.bound, channel, es)
  {
    hide Parses, EnvBody, Sealed, OneOwner, TextCap, GivesFresh, NamesAllBut, Taken, AllFit, Handles, NamesDuplicates,
      DuplicatesOf;
    var first := give(0, daemonEnd);
    if first.None? {
      return None, 0, [];
    }
    channel := first.value;
    var entries: seq<HandedEntry> := [];
    var todo := h.entries.Keys;
    var taken := 1;
    NothingTaken(h, give, daemonEnd, channel);
    while todo != {}
      invariant todo <= h.entries.Keys && NamesAllBut(h.entries, todo, entries)
      invariant forall i, id :: 0 <= i < |entries| && id in todo ==> entries[i].id < id
      invariant taken == 1 + |Handles(entries)| && Taken(give, channel, entries)
      invariant NamesDuplicates(give, h.entries, entries)
      invariant AllFit(entries) && |entries| == |h.entries| - |todo|
      decreases todo
    {
      var id := Least(todo);
      var e := h.entries[id];
      var values := DuplicateEntry(give, taken, e.handles);
      if values.None? {
        return None, 0, [];
      }
      var entry := HandedEntry(id, e.what, values.value, e.record);
      NamesOneMore(h.entries, todo, entries, entry);
      TakenMore(give, channel, entries, entry, e.handles);
      DuplicatesMore(give, h.entries, entries, entry);
      entries := entries + [entry];
      taken := taken + |values.value|;
      todo := todo - {id};
    }
    es := entries;
    var text := EncodeEnv(crc, first.value, entries);
    if GivesFresh(give) && TextCap(h.bound) <= U64_MAX {
      AscendingIds(h.entries, es);
      OneOwnerOfFresh(give, channel, es);
      HandoffRoundTrip(crc, h.bound, channel, es);
    }
    return Some(text), channel, es;
  }

  lemma {:induction false} NothingTaken(h: Holdings, give: Give, daemonEnd: U64, channel: U64)
    requires give(0, daemonEnd) == Some(channel)
    ensures NamesAllBut(h.entries, h.entries.Keys, []) && Taken(give, channel, []) && AllFit([]) && Handles([]) == []
    ensures NamesDuplicates(give, h.entries, []) && IsDuplicate(give, daemonEnd, channel)
  {
    assert IsGiven(give, 0, channel);
  }

  lemma {:induction false} TakenMore(give: Give, channel: U64, es: seq<HandedEntry>, e: HandedEntry, handles: seq<U64>)
    requires Taken(give, channel, es) && AllFit(es) && EntryFits(e) && |handles| == |e.values|
    requires forall k :: 0 <= k < |e.values| ==> give(1 + |Handles(es)| + k, handles[k]) == Some(e.values[k])
    ensures Taken(give, channel, es + [e]) && AllFit(es + [e])
    ensures |Handles(es + [e])| == |Handles(es)| + |e.values|
    ensures DuplicatesOf(give, handles, e.values)
  {
    hide Handles, EntryFits;
    HandlesSnoc(es, e);
    var was, all := [channel] + Handles(es), [channel] + Handles(es + [e]);
    assert all == was + e.values;
    TakenAfter(give, was, e.values, handles);
    forall k | 0 <= k < |e.values| ensures IsDuplicate(give, handles[k], e.values[k]) {
      assert give(1 + |Handles(es)| + k, handles[k]) == Some(e.values[k]);
    }
  }

  lemma {:induction false} DuplicatesMore(
    give: Give, entries: map<U64, HeldEntry>, es: seq<HandedEntry>, e: HandedEntry)
    requires NamesDuplicates(give, entries, es) && NamesOne(entries, e)
    requires DuplicatesOf(give, entries[e.id].handles, e.values)
    ensures NamesDuplicates(give, entries, es + [e])
  {
    hide DuplicatesOf;
  }

  lemma {:induction false} HandlesSnoc(es: seq<HandedEntry>, e: HandedEntry)
    ensures Handles(es + [e]) == Handles(es) + e.values
  {
    assert (es + [e])[..|es|] == es;
  }

  lemma {:induction false} TakenAfter(give: Give, was: seq<U64>, values: seq<U64>, handles: seq<U64>)
    requires |handles| == |values| && forall k :: 0 <= k < |was| ==> IsGiven(give, k, was[k])
    requires forall k :: 0 <= k < |values| ==> give(|was| + k, handles[k]) == Some(values[k])
    ensures forall k :: 0 <= k < |was + values| ==> IsGiven(give, k, (was + values)[k])
  {
    forall k | 0 <= k < |was + values| ensures IsGiven(give, k, (was + values)[k]) {
      if k >= |was| {
        var j := k - |was|;
        assert give(|was| + j, handles[j]) == Some(values[j]);
      }
    }
  }

  lemma {:induction false} AscendingIds(entries: map<U64, HeldEntry>, es: seq<HandedEntry>)
    requires NamesAllBut(entries, {}, es)
    ensures forall i, j :: 0 <= i < j < |es| ==> es[i].id < es[j].id
  {
  }

  lemma {:induction false} HasIdMore(es: seq<HandedEntry>, e: HandedEntry, id: U64)
    requires HasId(es, id)
    ensures HasId(es + [e], id)
  {
    var i :| 0 <= i < |es| && es[i].id == id;
    assert (es + [e])[i].id == id;
  }

  lemma {:induction false} OneOwnerOfFresh(give: Give, channel: U64, es: seq<HandedEntry>)
    requires GivesFresh(give) && Taken(give, channel, es)
    requires forall i, j :: 0 <= i < j < |es| ==> es[i].id < es[j].id
    ensures OneOwner(channel, es)
  {
    var all := [channel] + Handles(es);
    forall i, j | 0 <= i < j < |all| ensures all[i] != all[j] {
      assert IsGiven(give, i, all[i]) && IsGiven(give, j, all[j]);
      var h, g :| give(i, h) == Some(all[i]) && give(j, g) == Some(all[j]);
    }
  }
}
