/**
  Datagram fragmentation: Send cuts a long message into numbered fragments, Receive puts them
  together again from whatever order, interleaving and repetition the network delivers.
 */
module Fragments {
  import opened Bytes

  const MAX_DATAGRAM := 1000
  const HEADER := 10
  const MAX_PAYLOAD := MAX_DATAGRAM - HEADER
  const FRAGMENT_MAGIC: uint16 := 0xD0C0

  datatype Header = Header(id: uint32, index: uint16, count: uint16)

  // ----- the header

  function Encode(h: Header): (b: seq<byte>)
    ensures |b| == HEADER
  {
    PutUint16(FRAGMENT_MAGIC) + PutUint32(h.id) + PutUint16(h.index) + PutUint16(h.count)
  }

  /** decodeFragmentHeader: header and payload, or None for its three error returns. */
  function Decode(d: seq<byte>): (r: Option<(Header, seq<byte>)>)
    ensures r.Some? ==> r.value.0.index < r.value.0.count
  {
    if |d| < HEADER || Uint16(d[..2]) != FRAGMENT_MAGIC then None
    else
      var h := Header(Uint32(d[2..6]), Uint16(d[6..8]), Uint16(d[8..10]));
      if h.index >= h.count then None else Some((h, d[HEADER..]))
  }

  lemma DecodeEncode(h: Header, payload: seq<byte>)
    ensures Decode(Encode(h) + payload) == if h.index < h.count then Some((h, payload)) else None
  {
    var d := Encode(h) + payload;
    assert d[..2] == PutUint16(FRAGMENT_MAGIC);
    assert d[2..6] == PutUint32(h.id);
    assert d[6..8] == PutUint16(h.index);
    assert d[8..10] == PutUint16(h.count);
    assert d[HEADER..] == payload;
  }

  /** Ten bytes: D0 C0, then id, index and count, each with its most significant byte first. */
  lemma HeaderBytes(h: Header)
    ensures var b := Encode(h);
            && b[0] == 0xD0 && b[1] == 0xC0
            && b[2] * 0x100_0000 + b[3] * 0x1_0000 + b[4] * 0x100 + b[5] as int == h.id
            && b[6] * 0x100 + b[7] as int == h.index
            && b[8] * 0x100 + b[9] as int == h.count
  {
    BigEndian(h.index, h.id);
    BigEndian(h.count, h.id);
    var b := Encode(h);
    var id := PutUint32(h.id);
    assert b[2] == id[0] && b[3] == id[1] && b[4] == id[2] && b[5] == id[3];
    assert b[6] == PutUint16(h.index)[0] && b[7] == PutUint16(h.index)[1];
    assert b[8] == PutUint16(h.count)[0] && b[9] == PutUint16(h.count)[1];
  }

  /** A datagram is read as a fragment exactly if it is a header whose index is below its count, then the payload. */
  lemma DecodeIff(d: seq<byte>, h: Header, payload: seq<byte>)
    ensures Decode(d) == Some((h, payload)) <==> d == Encode(h) + payload && h.index < h.count
  {
    if Decode(d) == Some((h, payload)) {
      PutOfUint16(d[..2]);
      PutOfUint32(d[2..6]);
      PutOfUint16(d[6..8]);
      PutOfUint16(d[8..10]);
      assert d == d[..2] + d[2..6] + d[6..8] + d[8..10] + d[10..];
    }
    if d == Encode(h) + payload {
      DecodeEncode(h, payload);
    }
  }

  // ----- the table of partial messages

  /** A slot is None until its fragment arrives (a nil slice in the code). */
  type Slots = seq<Option<seq<byte>>>
  datatype Partial = Partial(slots: Slots, received: nat)
  type Messages = map<uint32, Partial>

  function Blank(count: nat): (r: Slots)
    ensures |r| == count && forall i :: 0 <= i < count ==> r[i].None?
  {
    seq(count, _ => None)
  }

  function Filled(slots: Slots): nat {
    if slots == [] then 0 else (if slots[0].Some? then 1 else 0) + Filled(slots[1..])
  }

  function Join(slots: Slots): seq<byte> {
    if slots == [] then [] else (if slots[0].Some? then slots[0].value else []) + Join(slots[1..])
  }

  datatype Outcome = Outcome(table: Messages, delivered: Option<seq<byte>>)

  /** addFragment: a count mismatch drops the entry, a duplicate is ignored, the last missing slot delivers. */
  function Add(t: Messages, h: Header, data: seq<byte>): Outcome {
    var msg := if h.id in t then t[h.id] else Partial(Blank(h.count), 0);
    if |msg.slots| != h.count then Outcome(t - {h.id}, None)
    else if h.index >= |msg.slots| then Outcome(t[h.id := msg], None)
    else if msg.slots[h.index].Some? then Outcome(t[h.id := msg], None)
    else
      var slots := msg.slots[h.index := Some(data)];
      if msg.received + 1 == h.count then Outcome(t - {h.id}, Some(Join(slots)))
      else Outcome(t[h.id := Partial(slots, msg.received + 1)], None)
  }

  // ----- what every table entry satisfies

  ghost predicate EntryOk(m: Partial) {
    1 <= m.received == Filled(m.slots) < |m.slots|
  }

  ghost predicate TableOk(t: Messages) {
    forall id :: id in t ==> EntryOk(t[id])
  }

  lemma {:induction false} FilledBlank(n: nat)
    ensures Filled(Blank(n)) == 0
  {
    if n > 0 {
      assert Blank(n)[1..] == Blank(n - 1);
      FilledBlank(n - 1);
    }
  }

  lemma {:induction false} FilledSet(slots: Slots, i: nat, data: seq<byte>)
    requires i < |slots| && slots[i].None?
    ensures Filled(slots[i := Some(data)]) == Filled(slots) + 1
  {
    if i > 0 {
      FilledSet(slots[1..], i - 1, data);
      assert slots[i := Some(data)][1..] == slots[1..][i - 1 := Some(data)];
    } else {
      assert slots[i := Some(data)][1..] == slots[1..];
    }
  }

  lemma {:induction false} FilledBound(slots: Slots)
    ensures Filled(slots) <= |slots|
    ensures Filled(slots) == |slots| <==> forall i :: 0 <= i < |slots| ==> slots[i].Some?
  {
    if slots != [] {
      FilledBound(slots[1..]);
      assert forall i :: 0 <= i < |slots[1..]| ==> slots[1..][i] == slots[i + 1];
      assert (forall i :: 0 <= i < |slots| ==> slots[i].Some?) <==>
             slots[0].Some? && (forall i :: 0 <= i < |slots[1..]| ==> slots[1..][i].Some?) by {
        if slots[0].Some? && (forall i :: 0 <= i < |slots[1..]| ==> slots[1..][i].Some?) {
          forall i | 0 <= i < |slots| ensures slots[i].Some? {
            if i > 0 { assert slots[1..][i - 1].Some?; }
          }
        }
      }
    }
  }

  /** Under any valid header, entries stay partial and their counters exact; a delivery needs every slot. */
  lemma AddKeepsTable(t: Messages, h: Header, data: seq<byte>)
    requires TableOk(t) && h.index < h.count
    ensures TableOk(Add(t, h, data).table)
    ensures Add(t, h, data).delivered.Some? ==> h.id !in Add(t, h, data).table
  {
    var msg := if h.id in t then t[h.id] else Partial(Blank(h.count), 0);
    FilledBlank(h.count);
    assert h.id in t ==> EntryOk(t[h.id]);
    if |msg.slots| == h.count && msg.slots[h.index].None? {
      FilledSet(msg.slots, h.index, data);
      FilledBound(msg.slots[h.index := Some(data)]);
    }
  }

  /** A fragment touches no entry but its own. */
  lemma AddKeepsOthers(t: Messages, h: Header, data: seq<byte>)
    ensures Add(t, h, data).table - {h.id} == t - {h.id}
  {
  }

  // ----- runs under arbitrary headers

  datatype Event = Event(h: Header, data: seq<byte>)

  ghost predicate ValidEvents(evs: seq<Event>) {
    forall k :: 0 <= k < |evs| ==> evs[k].h.index < evs[k].h.count
  }

  function TableAfter(evs: seq<Event>): Messages
    requires ValidEvents(evs)
  {
    if evs == [] then map[]
    else Add(TableAfter(evs[..|evs| - 1]), evs[|evs| - 1].h, evs[|evs| - 1].data).table
  }

  /** The first payload seen for slot i of a message. */
  function First(evs: seq<Event>, id: uint32, i: nat): Option<seq<byte>> {
    if evs == [] then None
    else if evs[0].h.id == id && evs[0].h.index == i then Some(evs[0].data)
    else First(evs[1..], id, i)
  }

  lemma {:induction false} FirstSnoc(evs: seq<Event>, e: Event, id: uint32, i: nat)
    ensures First(evs + [e], id, i)
         == if First(evs, id, i).Some? then First(evs, id, i)
            else if e.h.id == id && e.h.index == i then Some(e.data) else None
  {
    if evs == [] {
      assert evs + [e] == [e];
    } else {
      assert (evs + [e])[1..] == evs[1..] + [e];
      FirstSnoc(evs[1..], e, id, i);
    }
  }

  /** Slot by slot, an entry holds the first payload seen since event k. */
  ghost predicate Explains(evs: seq<Event>, id: uint32, slots: Slots) {
    forall i :: 0 <= i < |slots| ==> slots[i] == First(evs, id, i)
  }

  /** The entry of a message was created by event k and has existed ever since. */
  ghost predicate CreatedAt(evs: seq<Event>, id: uint32, k: nat)
    requires ValidEvents(evs)
  {
    && k < |evs| && id !in TableAfter(evs[..k])
    && forall j :: k < j <= |evs| ==> id in TableAfter(evs[..j])
  }

  lemma SetSlot(evs: seq<Event>, e: Event, id: uint32, slots: Slots)
    requires e.h.id == id && e.h.index < |slots| && slots[e.h.index].None? && Explains(evs, id, slots)
    ensures Explains(evs + [e], id, slots[e.h.index := Some(e.data)])
  {
    forall i | 0 <= i < |slots| ensures slots[e.h.index := Some(e.data)][i] == First(evs + [e], id, i) {
      FirstSnoc(evs, e, id, i);
    }
  }

  lemma KeepSlots(evs: seq<Event>, e: Event, id: uint32, slots: Slots)
    requires Explains(evs, id, slots) && (e.h.id != id || (e.h.index < |slots| && slots[e.h.index].Some?))
    ensures Explains(evs + [e], id, slots)
  {
    forall i | 0 <= i < |slots| ensures slots[i] == First(evs + [e], id, i) {
      FirstSnoc(evs, e, id, i);
    }
  }

  lemma BlankExplained(id: uint32, n: nat)
    ensures Explains([], id, Blank(n))
  {
  }

  lemma CreatedExtends(evs: seq<Event>, e: Event, id: uint32, k: nat)
    requires ValidEvents(evs + [e]) && ValidEvents(evs) && CreatedAt(evs, id, k) && id in TableAfter(evs + [e])
    ensures CreatedAt(evs + [e], id, k)
  {
    var evs' := evs + [e];
    assert evs'[..k] == evs[..k];
    forall j | k < j <= |evs'| ensures id in TableAfter(evs'[..j]) {
      if j <= |evs| { assert evs'[..j] == evs[..j]; } else { assert evs'[..j] == evs'; }
    }
  }

  /** What one event does to the slots of an entry that survives it. */
  lemma EntryStep(t: Messages, e: Event, id: uint32, since: seq<Event>)
    requires e.h.index < e.h.count && id in Add(t, e.h, e.data).table
    requires if id in t then Explains(since, id, t[id].slots) else since == []
    ensures id !in t ==> e.h.id == id
    ensures Explains(since + [e], id, Add(t, e.h, e.data).table[id].slots)
  {
    if id !in t {
      BlankExplained(id, e.h.count);
      SetSlot(since, e, id, Blank(e.h.count));
    } else if e.h.id == id && t[id].slots[e.h.index].None? {
      SetSlot(since, e, id, t[id].slots);
    } else {
      KeepSlots(since, e, id, t[id].slots);
    }
  }

  /** Every entry is explained by the events since its creation, whatever headers arrived. */
  lemma {:induction false} EntryExplained(evs: seq<Event>, id: uint32) returns (k: nat)
    requires ValidEvents(evs) && id in TableAfter(evs)
    ensures CreatedAt(evs, id, k) && Explains(evs[k..], id, TableAfter(evs)[id].slots)
  {
    var n := |evs| - 1;
    var before, e := evs[..n], evs[n];
    var t := TableAfter(before);
    assert evs == before + [e];
    if id in t {
      k := EntryExplained(before, id);
      assert evs[k..] == before[k..] + [e];
      EntryStep(t, e, id, before[k..]);
      CreatedExtends(before, e, id, k);
    } else {
      k := n;
      NewEntry(before, e, id);
    }
  }

  lemma NewEntry(evs: seq<Event>, e: Event, id: uint32)
    requires ValidEvents(evs) && ValidEvents(evs + [e])
    requires id !in TableAfter(evs) && id in TableAfter(evs + [e])
    ensures CreatedAt(evs + [e], id, |evs|)
    ensures Explains((evs + [e])[|evs|..], id, TableAfter(evs + [e])[id].slots)
  {
    var evs' := evs + [e];
    assert evs'[..|evs|] == evs && evs'[|evs|] == e && evs'[|evs|..] == [] + [e];
    EntryStep(TableAfter(evs), e, id, []);
    assert evs'[..|evs| + 1] == evs';
  }

  /**
    A message that is handed out is the in-order concatenation of the first payload seen for each
    slot since its entry was created (or of the one fragment, if it had no entry).
   */
  lemma DeliveryExplained(evs: seq<Event>, e: Event) returns (k: nat, slots: Slots)
    requires ValidEvents(evs) && e.h.index < e.h.count
    requires Add(TableAfter(evs), e.h, e.data).delivered.Some?
    ensures k <= |evs| && (k < |evs| ==> CreatedAt(evs, e.h.id, k)) && (k == |evs| ==> e.h.id !in TableAfter(evs))
    ensures |slots| == e.h.count && Explains(evs[k..] + [e], e.h.id, slots)
    ensures Add(TableAfter(evs), e.h, e.data).delivered == Some(Join(slots))
    ensures forall i :: 0 <= i < |slots| ==> slots[i].Some?
  {
    var t, id := TableAfter(evs), e.h.id;
    var msg := if id in t then t[id] else Partial(Blank(e.h.count), 0);
    slots := msg.slots[e.h.index := Some(e.data)];
    if id in t {
      k := EntryExplained(evs, id);
    } else {
      k := |evs|;
      BlankExplained(id, e.h.count);
    }
    SetSlot(evs[k..], e, id, msg.slots);
    RunKeepsTable(evs);
    FilledBlank(e.h.count);
    assert id in t ==> EntryOk(t[id]);
    FilledSet(msg.slots, e.h.index, e.data);
    FilledBound(slots);
  }

  /**
    One fragment: other messages are left alone, and its own is handed out exactly if this was the
    only piece missing, forgotten if it was handed out or the counts disagree, and kept otherwise.
   */
  lemma AddIff(t: Messages, h: Header, data: seq<byte>)
    requires TableOk(t) && h.index < h.count
    ensures var slots, r := (if h.id in t then t[h.id].slots else Blank(h.count)), Add(t, h, data);
            && (r.delivered.Some? <==> && |slots| == h.count && slots[h.index].None?
                                       && forall i :: 0 <= i < h.count && i != h.index ==> slots[i].Some?)
            && (h.id in r.table <==> |slots| == h.count && r.delivered.None?)
            && (h.id in r.table ==>
                  r.table[h.id].slots == if slots[h.index].None? then slots[h.index := Some(data)] else slots)
            && r.table - {h.id} == t - {h.id}
  {
    var slots := if h.id in t then t[h.id].slots else Blank(h.count);
    if h.id in t { assert EntryOk(t[h.id]); } else { FilledBlank(h.count); }
    if |slots| == h.count && slots[h.index].None? {
      var slots' := slots[h.index := Some(data)];
      FilledSet(slots, h.index, data);
      FilledBound(slots');
      assert (forall i :: 0 <= i < h.count ==> slots'[i].Some?) <==>
             forall i :: 0 <= i < h.count && i != h.index ==> slots[i].Some? by {
        if forall i :: 0 <= i < h.count ==> slots'[i].Some? {
          forall i | 0 <= i < h.count && i != h.index ensures slots[i].Some? { assert slots'[i].Some?; }
        }
      }
    }
  }

  /** In every run, every entry has 1 <= received == filled slots < count. */
  lemma {:induction false} RunKeepsTable(evs: seq<Event>)
    requires ValidEvents(evs)
    ensures TableOk(TableAfter(evs))
  {
    if evs != [] {
      RunKeepsTable(evs[..|evs| - 1]);
      AddKeepsTable(TableAfter(evs[..|evs| - 1]), evs[|evs| - 1].h, evs[|evs| - 1].data);
    }
  }
}
