/**
  Fragmentation end to end: what Send puts on the network, and what Receive makes of any
  interleaving, reordering and repetition of it.
 */
module Reassembly {
  import opened Bytes
  import opened Fragments

  const MAX_MESSAGE := 65535 * MAX_PAYLOAD

  // ----- cutting

  function Count(data: seq<byte>): nat { (|data| + MAX_PAYLOAD - 1) / MAX_PAYLOAD }

  function Piece(data: seq<byte>, i: nat): seq<byte>
    requires i < Count(data)
  {
    var end := (i + 1) * MAX_PAYLOAD;
    data[i * MAX_PAYLOAD..if end > |data| then |data| else end]
  }

  function Fragment(data: seq<byte>, id: uint32, i: nat): seq<byte>
    requires i < Count(data) <= 0xFFFF
  {
    Encode(Header(id, i, Count(data))) + Piece(data, i)
  }

  /** Slots that hold the pieces of a message join to the message. */
  lemma {:induction false} JoinPieces(data: seq<byte>, slots: Slots, j: nat)
    requires |slots| == Count(data) && j <= |slots|
    requires forall i :: j <= i < |slots| ==> slots[i] == Some(Piece(data, i))
    ensures j * MAX_PAYLOAD <= |data| || j == |slots|
    ensures Join(slots[j..]) == if j * MAX_PAYLOAD <= |data| then data[j * MAX_PAYLOAD..] else []
    decreases |slots| - j
  {
    if j < |slots| {
      JoinPieces(data, slots, j + 1);
      assert slots[j..][0] == slots[j] && slots[j..][1..] == slots[j + 1..];
    }
  }

  // ----- sending

  /** What Send hands to SendDatagram. The fragment count is converted to uint16. */
  function Sent(data: seq<byte>, id: uint32): (r: seq<seq<byte>>) {
    if |data| <= MAX_PAYLOAD then [data]
    else
      var count := Count(data) % 0x1_0000;
      seq(count, i requires 0 <= i < count => Encode(Header(id, i, count)) + Piece(data, i))
  }

  /** Up to 990 bytes go out as they are; more are cut every 990 bytes, */
  lemma SentCount(data: seq<byte>, id: uint32)
    ensures |data| <= 990 ==> Sent(data, id) == [data]
    ensures |data| > 990 ==> |Sent(data, id)| == (|data| + 989) / 990 % 0x1_0000
  {
  }

  /** behind a ten-byte header each, so that no datagram has more than 1000 bytes. */
  lemma SentForm(data: seq<byte>, id: uint32, i: nat)
    requires |data| > 990 && i < |Sent(data, id)|
    ensures var s, left := Sent(data, id), |data| - 990 * i;
            && |s| < 0x1_0000 && 0 < left && |s[i]| == (if left < 990 then 10 + left else 1000)
            && s[i] == Encode(Header(id, i, |s|)) + data[990 * i..990 * i + |s[i]| - 10]
  {
    SentElement(data, id, i);
    PieceForm(data, i);
  }

  lemma PieceForm(data: seq<byte>, i: nat)
    requires i < Count(data)
    ensures var left := |data| - 990 * i;
            && 0 < left && |Piece(data, i)| == (if left < 990 then left else 990)
            && Piece(data, i) == data[990 * i..990 * i + |Piece(data, i)|]
  {
    PieceBounds(data, i);
  }

  method Send(data: seq<byte>, id: uint32) returns (out: seq<seq<byte>>)
    ensures out == Sent(data, id)
  {
    if |data| <= MAX_PAYLOAD { return [data]; }
    var count := (|data| + MAX_PAYLOAD - 1) / MAX_PAYLOAD % 0x1_0000;
    ghost var sent := Sent(data, id);
    out := [];
    for i := 0 to count
      invariant i <= |sent| == count && out == sent[..i]
    {
      var start := i * MAX_PAYLOAD;
      var end := start + MAX_PAYLOAD;
      if end > |data| { end := |data|; }
      SentAt(data, id, i, start, end);
      out := out + [Encode(Header(id, i, count)) + data[start..end]];
    }
  }

  lemma SentAt(data: seq<byte>, id: uint32, i: nat, start: nat, end: nat)
    requires |data| > MAX_PAYLOAD && i < Count(data) % 0x1_0000 && start == i * MAX_PAYLOAD
    requires end == if start + MAX_PAYLOAD > |data| then |data| else start + MAX_PAYLOAD
    ensures var s, count := Sent(data, id), Count(data) % 0x1_0000;
            && start <= end && |s| == count
            && s[..i + 1] == s[..i] + [Encode(Header(id, i, count)) + data[start..end]]
  {
    PieceBounds(data, i);
    SentElement(data, id, i);
    OneMore(Sent(data, id), i);
  }

  lemma SentElement(data: seq<byte>, id: uint32, i: nat)
    requires |data| > MAX_PAYLOAD && i < Count(data) % 0x1_0000
    ensures var s, count := Sent(data, id), Count(data) % 0x1_0000;
            |s| == count && s[i] == Encode(Header(id, i, count)) + Piece(data, i)
  {
  }

  lemma OneMore(s: seq<seq<byte>>, i: nat)
    requires i < |s|
    ensures s[..i + 1] == s[..i] + [s[i]]
  {
  }

  lemma PieceBounds(data: seq<byte>, i: nat)
    requires i < Count(data)
    ensures i * MAX_PAYLOAD < |data|
  {
  }

  // ----- receiving

  /** One datagram: a fragment goes to the table, anything else is a message of its own. */
  function Deliver(t: Messages, d: seq<byte>): Outcome {
    match Decode(d)
    case Some(f) => Add(t, f.0, f.1)
    case None => Outcome(t, Some(d))
  }

  /** What arrives: fragment `index` of message `id`, or a short message sent whole. */
  datatype Arrival = Frag(id: uint32, index: nat) | Raw(data: seq<byte>)

  type Outbox = map<uint32, seq<byte>>

  ghost predicate Sendable(msgs: Outbox) {
    forall id :: id in msgs ==> 0 < |msgs[id]| <= MAX_MESSAGE
  }

  ghost predicate Complete(msgs: Outbox, arr: seq<Arrival>, id: uint32)
    requires id in msgs
  {
    forall i :: 0 <= i < Count(msgs[id]) ==> Frag(id, i) in arr
  }

  ghost predicate Started(arr: seq<Arrival>, id: uint32) {
    exists i: nat :: Frag(id, i) in arr
  }

  ghost predicate GenuineAt(msgs: Outbox, arr: seq<Arrival>, k: nat)
    requires k < |arr|
  {
    match arr[k]
    case Raw(d) => Decode(d).None?
    case Frag(id, i) => id in msgs && i < Count(msgs[id])
  }

  /** Fragments of these messages and short messages, in any order, each any number of times. */
  ghost predicate Genuine(msgs: Outbox, arr: seq<Arrival>) {
    Sendable(msgs) && forall k {:trigger GenuineAt(msgs, arr, k)} :: 0 <= k < |arr| ==> GenuineAt(msgs, arr, k)
  }

  function Datagram(msgs: Outbox, a: Arrival): seq<byte>
    requires a.Frag? ==> a.id in msgs && a.index < Count(msgs[a.id]) <= 0xFFFF
  {
    match a
    case Raw(d) => d
    case Frag(id, i) => Fragment(msgs[id], id, i)
  }

  lemma CountBound(data: seq<byte>)
    requires 0 < |data| <= MAX_MESSAGE
    ensures 1 <= Count(data) <= 0xFFFF
  {
  }

  lemma GenuinePrefix(msgs: Outbox, arr: seq<Arrival>, n: nat)
    requires Genuine(msgs, arr) && n <= |arr|
    ensures Genuine(msgs, arr[..n])
  {
    forall k {:trigger GenuineAt(msgs, arr[..n], k)} | 0 <= k < n ensures GenuineAt(msgs, arr[..n], k) {
      assert GenuineAt(msgs, arr, k);
    }
  }

  lemma GenuineDatagram(msgs: Outbox, arr: seq<Arrival>, k: nat)
    requires Genuine(msgs, arr) && k < |arr|
    ensures arr[k].Frag? ==> arr[k].id in msgs && arr[k].index < Count(msgs[arr[k].id]) <= 0xFFFF
  {
    assert GenuineAt(msgs, arr, k);
    if arr[k].Frag? { CountBound(msgs[arr[k].id]); }
  }

  function After(msgs: Outbox, arr: seq<Arrival>): Messages
    requires Genuine(msgs, arr)
  {
    if arr == [] then map[]
    else
      var n := |arr| - 1;
      GenuinePrefix(msgs, arr, n);
      GenuineDatagram(msgs, arr, n);
      Deliver(After(msgs, arr[..n]), Datagram(msgs, arr[n])).table
  }

  /** What the k-th datagram makes Receive return, if anything. */
  function Output(msgs: Outbox, arr: seq<Arrival>, k: nat): Option<seq<byte>>
    requires Genuine(msgs, arr) && k < |arr|
  {
    GenuinePrefix(msgs, arr, k);
    GenuineDatagram(msgs, arr, k);
    Deliver(After(msgs, arr[..k]), Datagram(msgs, arr[k])).delivered
  }

  // ----- rounds of a message

  /** What has arrived since message `id` was last complete: a complete stretch starts a new one. */
  ghost function Recent(msgs: Outbox, arr: seq<Arrival>, id: uint32): seq<Arrival>
    requires id in msgs
  {
    if arr == [] then []
    else
      var n := |arr| - 1;
      var r := Recent(msgs, arr[..n], id) + [arr[n]];
      if Complete(msgs, r, id) then [] else r
  }

  /** How often message `id` has become complete. */
  ghost function Rounds(msgs: Outbox, arr: seq<Arrival>, id: uint32): nat
    requires id in msgs
  {
    if arr == [] then 0
    else
      var n := |arr| - 1;
      Rounds(msgs, arr[..n], id) + if Complete(msgs, Recent(msgs, arr[..n], id) + [arr[n]], id) then 1 else 0
  }

  lemma RecentSnoc(msgs: Outbox, arr: seq<Arrival>, a: Arrival, id: uint32)
    requires id in msgs
    ensures var r := Recent(msgs, arr, id) + [a];
            && Recent(msgs, arr + [a], id) == (if Complete(msgs, r, id) then [] else r)
            && Rounds(msgs, arr + [a], id) == Rounds(msgs, arr, id) + if Complete(msgs, r, id) then 1 else 0
  {
    assert (arr + [a])[..|arr|] == arr;
  }

  lemma {:induction false} RecentIncomplete(msgs: Outbox, arr: seq<Arrival>, id: uint32)
    requires id in msgs && |msgs[id]| > 0
    ensures !Complete(msgs, Recent(msgs, arr, id), id)
  {
    var none: seq<Arrival> := [];
    assert Count(msgs[id]) >= 1 && Frag(id, 0) !in none;
    assert !Complete(msgs, none, id);
  }

  /** Until a message is complete, everything is recent. */
  lemma {:induction false} AllRecent(msgs: Outbox, arr: seq<Arrival>, id: uint32)
    requires id in msgs && !Complete(msgs, arr, id)
    ensures Recent(msgs, arr, id) == arr && Rounds(msgs, arr, id) == 0
  {
    if arr != [] {
      var n := |arr| - 1;
      assert arr[..n] + [arr[n]] == arr;
      Earlier(msgs, arr, id, n, |arr|);
      assert arr[..|arr|] == arr;
      AllRecent(msgs, arr[..n], id);
    }
  }

  // ----- the table in every reachable state

  /** The table holds exactly the messages with recent fragments, each with exactly the pieces that came. */
  ghost predicate Tracks(msgs: Outbox, arr: seq<Arrival>, t: Messages) {
    && TableOk(t)
    && (forall id :: id in t ==> id in msgs)
    && (forall id :: id in msgs ==> TracksAt(msgs, arr, t, id))
  }

  ghost predicate TracksAt(msgs: Outbox, arr: seq<Arrival>, t: Messages, id: uint32)
    requires id in msgs
  {
    var r := Recent(msgs, arr, id);
    (id in t <==> Started(r, id)) && (id in t ==> Holds(msgs[id], r, id, t[id].slots))
  }

  ghost predicate Holds(data: seq<byte>, arr: seq<Arrival>, id: uint32, slots: Slots) {
    && |slots| == Count(data)
    && forall i :: 0 <= i < |slots| ==> slots[i] == if Frag(id, i) in arr then Some(Piece(data, i)) else None
  }

  lemma NotStarted(data: seq<byte>, arr: seq<Arrival>, id: uint32)
    requires !Started(arr, id)
    ensures Holds(data, arr, id, Blank(Count(data)))
  {
  }

  /** An arrival that is no fragment of message x changes nothing about x. */
  lemma OtherMessage(msgs: Outbox, arr: seq<Arrival>, t: Messages, a: Arrival, t': Messages, x: uint32)
    requires x in msgs && |msgs[x]| > 0 && !(a.Frag? && a.id == x) && TracksAt(msgs, arr, t, x)
    requires (x in t' <==> x in t) && (x in t ==> t'[x] == t[x])
    ensures TracksAt(msgs, arr + [a], t', x)
  {
    var r := Recent(msgs, arr, x);
    RecentSnoc(msgs, arr, a, x);
    RecentIncomplete(msgs, arr, x);
    assert forall i: nat :: Frag(x, i) in r + [a] <==> Frag(x, i) in r;
    assert Started(r + [a], x) <==> Started(r, x);
  }

  /** A change to the entry of one message only. */
  lemma TrackOne(msgs: Outbox, arr: seq<Arrival>, t: Messages, a: Arrival, t': Messages)
    requires Sendable(msgs) && Tracks(msgs, arr, t) && a.Frag? && a.id in msgs && TableOk(t')
    requires t' - {a.id} == t - {a.id} && TracksAt(msgs, arr + [a], t', a.id)
    ensures Tracks(msgs, arr + [a], t')
  {
    forall x | x in msgs && x != a.id ensures TracksAt(msgs, arr + [a], t', x) {
      assert x in t' <==> x in t' - {a.id};
      assert x in t <==> x in t - {a.id};
      assert x in t ==> (t - {a.id})[x] == t[x];
      assert x in t' ==> (t' - {a.id})[x] == t'[x];
      OtherMessage(msgs, arr, t, a, t', x);
    }
    forall x | x in t' ensures x in msgs {
      if x != a.id { assert x in t' - {a.id} && x in t; }
    }
  }

  /** One more fragment: the entry of its message, and the output. */
  lemma FragEntry(msgs: Outbox, arr: seq<Arrival>, t: Messages, id: uint32, i: nat)
    requires Sendable(msgs) && TableOk(t) && id in msgs && i < Count(msgs[id]) <= 0xFFFF && TracksAt(msgs, arr, t, id)
    ensures var o, a := Add(t, Header(id, i, Count(msgs[id])), Piece(msgs[id], i)), Frag(id, i);
            && TracksAt(msgs, arr + [a], o.table, id)
            && o.delivered == if Complete(msgs, Recent(msgs, arr, id) + [a], id) then Some(msgs[id]) else None
  {
    var data, a, r := msgs[id], Frag(id, i), Recent(msgs, arr, id);
    var msg := if id in t then t[id] else Partial(Blank(Count(data)), 0);
    if id !in t { NotStarted(data, r, id); }
    RecentIncomplete(msgs, arr, id);
    FragSlots(msgs, r, id, i, msg.slots);
    FilledBlank(Count(data));
    assert id in t ==> EntryOk(t[id]);
    if msg.slots[i].None? {
      FilledSet(msg.slots, i, Piece(data, i));
    }
    RecentSnoc(msgs, arr, a, id);
    assert a in r + [a] && !Started([], id);
  }

  /** The step: one more fragment, tracked, with the right output. */
  lemma TrackFrag(msgs: Outbox, arr: seq<Arrival>, t: Messages, id: uint32, i: nat)
    requires Sendable(msgs) && Tracks(msgs, arr, t) && id in msgs && i < Count(msgs[id]) <= 0xFFFF
    ensures var o, a := Deliver(t, Fragment(msgs[id], id, i)), Frag(id, i);
            && Tracks(msgs, arr + [a], o.table)
            && o.delivered == if Complete(msgs, Recent(msgs, arr, id) + [a], id) then Some(msgs[id]) else None
  {
    var h, piece := Header(id, i, Count(msgs[id])), Piece(msgs[id], i);
    DecodeEncode(h, piece);
    AddKeepsTable(t, h, piece);
    FragEntry(msgs, arr, t, id, i);
    AddKeepsOthers(t, h, piece);
    TrackOne(msgs, arr, t, Frag(id, i), Add(t, h, piece).table);
  }

  /** What the arrival of fragment i does to the slots of its message. */
  lemma FragSlots(msgs: Outbox, arr: seq<Arrival>, id: uint32, i: nat, slots: Slots)
    requires id in msgs && i < Count(msgs[id]) && Holds(msgs[id], arr, id, slots) && !Complete(msgs, arr, id)
    ensures var arr', slots' := arr + [Frag(id, i)], slots[i := Some(Piece(msgs[id], i))];
            && Holds(msgs[id], arr', id, slots')
            && (slots[i].Some? ==> slots' == slots && !Complete(msgs, arr', id))
            && (Complete(msgs, arr', id) <==> Filled(slots') == |slots'|)
            && (Complete(msgs, arr', id) ==> Join(slots') == msgs[id])
  {
    var arr', slots' := arr + [Frag(id, i)], slots[i := Some(Piece(msgs[id], i))];
    if slots[i].Some? {
      assert forall x :: x in arr' <==> x in arr;
    }
    FilledBound(slots');
    assert forall j :: 0 <= j < |slots'| ==> (slots'[j].Some? <==> Frag(id, j) in arr');
    if Complete(msgs, arr', id) {
      JoinPieces(msgs[id], slots', 0);
      assert slots'[0..] == slots' && msgs[id][0..] == msgs[id];
    }
  }

  /** After any run the table holds exactly the messages with recent fragments. */
  lemma {:induction false} AfterTracks(msgs: Outbox, arr: seq<Arrival>)
    requires Genuine(msgs, arr)
    ensures Tracks(msgs, arr, After(msgs, arr))
  {
    if arr == [] {
      assert forall id :: !Started(arr, id);
    } else {
      var n := |arr| - 1;
      var init, a := arr[..n], arr[n];
      assert arr == init + [a];
      GenuinePrefix(msgs, arr, n);
      GenuineDatagram(msgs, arr, n);
      AfterTracks(msgs, init);
      assert GenuineAt(msgs, arr, n);
      if a.Frag? {
        TrackFrag(msgs, init, After(msgs, init), a.id, a.index);
      } else {
        forall x | x in msgs ensures TracksAt(msgs, arr, After(msgs, arr), x) {
          OtherMessage(msgs, init, After(msgs, init), a, After(msgs, init), x);
        }
      }
    }
  }

  /** Receive returns a message exactly when the arrival is a whole one or ends a round of one. */
  lemma OutputIs(msgs: Outbox, arr: seq<Arrival>, k: nat)
    requires Genuine(msgs, arr) && k < |arr|
    ensures arr[k].Raw? ==> Output(msgs, arr, k) == Some(arr[k].data)
    ensures arr[k].Frag? ==> arr[k].id in msgs
    ensures arr[k].Frag? ==>
              Output(msgs, arr, k) == if Complete(msgs, Recent(msgs, arr[..k], arr[k].id) + [arr[k]], arr[k].id)
                                      then Some(msgs[arr[k].id]) else None
  {
    assert GenuineAt(msgs, arr, k);
    GenuinePrefix(msgs, arr, k);
    GenuineDatagram(msgs, arr, k);
    if arr[k].Frag? {
      AfterTracks(msgs, arr[..k]);
      TrackFrag(msgs, arr[..k], After(msgs, arr[..k]), arr[k].id, arr[k].index);
    }
  }

  // ----- how often a message is returned

  /** How many arrivals of its fragments made Receive return message `id`. */
  ghost function Returns(msgs: Outbox, arr: seq<Arrival>, id: uint32): nat
    requires Genuine(msgs, arr) && id in msgs
  {
    if arr == [] then 0
    else
      var n := |arr| - 1;
      GenuinePrefix(msgs, arr, n);
      Returns(msgs, arr[..n], id)
      + if arr[n].Frag? && arr[n].id == id && Output(msgs, arr, n) == Some(msgs[id]) then 1 else 0
  }

  lemma {:induction false} ReturnsAreRounds(msgs: Outbox, arr: seq<Arrival>, id: uint32)
    requires Genuine(msgs, arr) && id in msgs
    ensures Returns(msgs, arr, id) == Rounds(msgs, arr, id)
  {
    if arr != [] {
      var n := |arr| - 1;
      var r := Recent(msgs, arr[..n], id);
      GenuinePrefix(msgs, arr, n);
      ReturnsAreRounds(msgs, arr[..n], id);
      OutputIs(msgs, arr, n);
      if !(arr[n].Frag? && arr[n].id == id) {
        RecentIncomplete(msgs, arr[..n], id);
        assert forall i: nat :: Frag(id, i) in r + [arr[n]] <==> Frag(id, i) in r;
      }
    }
  }

  /** A message is returned at all exactly when each of its fragments has arrived. */
  lemma {:induction false} ReturnedIff(msgs: Outbox, arr: seq<Arrival>, id: uint32)
    requires Genuine(msgs, arr) && id in msgs
    ensures Returns(msgs, arr, id) > 0 <==> Complete(msgs, arr, id)
  {
    ReturnsAreRounds(msgs, arr, id);
    if Complete(msgs, arr, id) {
      RoundsAdvance(msgs, arr, id, 0, |arr|);
      assert arr[0..|arr|] == arr && arr[..|arr|] == arr && arr[..0] == [];
    } else {
      AllRecent(msgs, arr, id);
    }
  }

  /** Positions that cut off stretches of the run, each holding every fragment of the message. */
  ghost predicate Cuts(msgs: Outbox, arr: seq<Arrival>, id: uint32, cuts: seq<nat>)
    requires id in msgs
  {
    && cuts != [] && cuts[|cuts| - 1] <= |arr|
    && forall j {:trigger StretchAt(msgs, arr, id, cuts, j)} :: 0 < j < |cuts| ==> StretchAt(msgs, arr, id, cuts, j)
  }

  ghost predicate StretchAt(msgs: Outbox, arr: seq<Arrival>, id: uint32, cuts: seq<nat>, j: nat)
    requires id in msgs && 0 < j < |cuts|
  {
    Stretch(msgs, arr, id, cuts[j - 1], cuts[j])
  }

  ghost predicate Stretch(msgs: Outbox, arr: seq<Arrival>, id: uint32, c: nat, d: nat)
    requires id in msgs
  {
    c <= d <= |arr| && Complete(msgs, arr[c..d], id)
  }

  /** Between two moments of the same round, everything that came is recent. */
  lemma {:induction false} SameRound(msgs: Outbox, arr: seq<Arrival>, id: uint32, c: nat, d: nat)
    requires id in msgs && c <= d <= |arr|
    ensures Rounds(msgs, arr[..c], id) <= Rounds(msgs, arr[..d], id)
    ensures Rounds(msgs, arr[..c], id) == Rounds(msgs, arr[..d], id) ==>
              Recent(msgs, arr[..d], id) == Recent(msgs, arr[..c], id) + arr[c..d]
    decreases d
  {
    if c < d {
      SameRound(msgs, arr, id, c, d - 1);
      assert arr[..d - 1] + [arr[d - 1]] == arr[..d];
      RecentSnoc(msgs, arr[..d - 1], arr[d - 1], id);
      Extend(Recent(msgs, arr[..c], id), arr, c, d);
    } else {
      assert Recent(msgs, arr[..c], id) + arr[c..d] == Recent(msgs, arr[..c], id);
    }
  }

  lemma Extend(r: seq<Arrival>, arr: seq<Arrival>, c: nat, d: nat)
    requires c < d <= |arr|
    ensures r + arr[c..d - 1] + [arr[d - 1]] == r + arr[c..d]
  {
  }

  lemma RoundsAdvance(msgs: Outbox, arr: seq<Arrival>, id: uint32, c: nat, d: nat)
    requires id in msgs && |msgs[id]| > 0 && Stretch(msgs, arr, id, c, d)
    ensures Rounds(msgs, arr[..c], id) < Rounds(msgs, arr[..d], id)
  {
    SameRound(msgs, arr, id, c, d);
    RecentIncomplete(msgs, arr[..d], id);
    var r := Recent(msgs, arr[..c], id) + arr[c..d];
    assert Complete(msgs, r, id) by { assert forall x :: x in arr[c..d] ==> x in r; }
  }

  /** A message is returned at least as often as stretches with all its fragments can be cut from the run, */
  lemma {:induction false} NoMoreStretches(msgs: Outbox, arr: seq<Arrival>, id: uint32, cuts: seq<nat>)
    requires Genuine(msgs, arr) && id in msgs && Cuts(msgs, arr, id, cuts)
    ensures |cuts| - 1 <= Rounds(msgs, arr[..cuts[|cuts| - 1]], id)
    decreases |cuts|
  {
    if |cuts| > 1 {
      var n := |cuts| - 1;
      var init := cuts[..n];
      CutsInit(msgs, arr, id, cuts);
      NoMoreStretches(msgs, arr, id, init);
      assert StretchAt(msgs, arr, id, cuts, n);
      RoundsAdvance(msgs, arr, id, cuts[n - 1], cuts[n]);
    }
  }

  lemma CutsInit(msgs: Outbox, arr: seq<Arrival>, id: uint32, cuts: seq<nat>)
    requires id in msgs && Cuts(msgs, arr, id, cuts) && |cuts| > 1
    ensures Cuts(msgs, arr, id, cuts[..|cuts| - 1])
  {
    var init := cuts[..|cuts| - 1];
    forall j {:trigger StretchAt(msgs, arr, id, init, j)} | 0 < j < |init| ensures StretchAt(msgs, arr, id, init, j) {
      assert StretchAt(msgs, arr, id, cuts, j);
    }
    assert StretchAt(msgs, arr, id, cuts, |init|);
  }

  /** Cuts of a run are cuts of a longer run. */
  lemma CutsGrow(msgs: Outbox, arr: seq<Arrival>, n: nat, id: uint32, cuts: seq<nat>)
    requires id in msgs && n <= |arr| && Cuts(msgs, arr[..n], id, cuts)
    ensures Cuts(msgs, arr, id, cuts)
  {
    forall j {:trigger StretchAt(msgs, arr, id, cuts, j)} | 0 < j < |cuts| ensures StretchAt(msgs, arr, id, cuts, j) {
      assert StretchAt(msgs, arr[..n], id, cuts, j);
      assert arr[..n][cuts[j - 1]..cuts[j]] == arr[cuts[j - 1]..cuts[j]];
    }
  }

  lemma CutsSnoc(msgs: Outbox, arr: seq<Arrival>, id: uint32, cuts: seq<nat>)
    requires id in msgs && Cuts(msgs, arr, id, cuts) && Complete(msgs, arr[cuts[|cuts| - 1]..], id)
    ensures Cuts(msgs, arr, id, cuts + [|arr|])
  {
    var c, more := cuts[|cuts| - 1], cuts + [|arr|];
    assert arr[c..|arr|] == arr[c..];
    forall j {:trigger StretchAt(msgs, arr, id, more, j)} | 0 < j < |more| ensures StretchAt(msgs, arr, id, more, j) {
      if j < |cuts| { assert StretchAt(msgs, arr, id, cuts, j); }
    }
  }

  /** and that often stretches can be cut. */
  lemma {:induction false} CutRounds(msgs: Outbox, arr: seq<Arrival>, id: uint32) returns (cuts: seq<nat>)
    requires id in msgs
    ensures Cuts(msgs, arr, id, cuts) && |cuts| - 1 == Rounds(msgs, arr, id)
    ensures Recent(msgs, arr, id) == arr[cuts[|cuts| - 1]..]
  {
    if arr == [] {
      cuts := [0];
    } else {
      var n := |arr| - 1;
      cuts := CutRounds(msgs, arr[..n], id);
      var c := cuts[|cuts| - 1];
      CutsGrow(msgs, arr, n, id, cuts);
      RecentLast(msgs, arr, id, c);
      if Complete(msgs, arr[c..], id) {
        CutsSnoc(msgs, arr, id, cuts);
        cuts := cuts + [|arr|];
      }
    }
  }

  /** One more arrival after the cut c. */
  lemma RecentLast(msgs: Outbox, arr: seq<Arrival>, id: uint32, c: nat)
    requires id in msgs && arr != [] && c < |arr| && Recent(msgs, arr[..|arr| - 1], id) == arr[..|arr| - 1][c..]
    ensures var n, whole := |arr| - 1, Complete(msgs, arr[c..], id);
            && Recent(msgs, arr, id) == (if whole then arr[|arr|..] else arr[c..])
            && Rounds(msgs, arr, id) == Rounds(msgs, arr[..n], id) + if whole then 1 else 0
  {
    var n := |arr| - 1;
    assert arr[..n][c..] + [arr[n]] == arr[c..];
    assert arr[..n] + [arr[n]] == arr;
    RecentSnoc(msgs, arr[..n], arr[n], id);
  }

  /**
    Over every sequence of arrivals, repetition included, Receive returns a message exactly as often
    as stretches holding all its fragments can be cut one after the other from the run.
   */
  lemma {:induction false} ReturnedAsOften(msgs: Outbox, arr: seq<Arrival>, id: uint32) returns (cuts: seq<nat>)
    requires Genuine(msgs, arr) && id in msgs
    ensures Cuts(msgs, arr, id, cuts) && Returns(msgs, arr, id) == |cuts| - 1
    ensures forall other :: Cuts(msgs, arr, id, other) ==> |other| <= |cuts|
  {
    ReturnsAreRounds(msgs, arr, id);
    cuts := CutRounds(msgs, arr, id);
    forall other | Cuts(msgs, arr, id, other) ensures |other| <= |cuts| {
      NoMoreStretches(msgs, arr, id, other);
      SameRound(msgs, arr, id, other[|other| - 1], |arr|);
      assert arr[..|arr|] == arr;
    }
  }

  /** The table is empty exactly when no fragment has come since its message was last complete. */
  lemma {:induction false} TableEmptyIff(msgs: Outbox, arr: seq<Arrival>)
    requires Genuine(msgs, arr)
    ensures After(msgs, arr) == map[] <==> forall id :: id in msgs ==> !Started(Recent(msgs, arr, id), id)
  {
    AfterTracks(msgs, arr);
    var t := After(msgs, arr);
    if forall id :: id in msgs ==> !Started(Recent(msgs, arr, id), id) {
      assert forall id :: id in t ==> id in msgs && TracksAt(msgs, arr, t, id);
    } else {
      var id :| id in msgs && Started(Recent(msgs, arr, id), id);
      assert TracksAt(msgs, arr, t, id);
    }
  }

  // ----- no repetition after completion

  ghost predicate FairAt(msgs: Outbox, arr: seq<Arrival>, k: nat)
    requires k < |arr|
  {
    arr[k].Frag? && arr[k].id in msgs ==> !Complete(msgs, arr[..k], arr[k].id)
  }

  /** Fragments are repeated only while their message is incomplete. */
  ghost predicate Fair(msgs: Outbox, arr: seq<Arrival>) {
    Genuine(msgs, arr) && forall k {:trigger FairAt(msgs, arr, k)} :: 0 <= k < |arr| ==> FairAt(msgs, arr, k)
  }

  lemma FairPrefix(msgs: Outbox, arr: seq<Arrival>, n: nat)
    requires Fair(msgs, arr) && n <= |arr|
    ensures Fair(msgs, arr[..n])
  {
    GenuinePrefix(msgs, arr, n);
    forall k {:trigger FairAt(msgs, arr[..n], k)} | 0 <= k < n ensures FairAt(msgs, arr[..n], k) {
      assert FairAt(msgs, arr, k) && arr[..n][..k] == arr[..k];
    }
  }

  /** The arrival that completes a message. */
  lemma {:induction false} CompletionPoint(msgs: Outbox, arr: seq<Arrival>, id: uint32) returns (k: nat)
    requires Fair(msgs, arr) && id in msgs && Complete(msgs, arr, id)
    ensures k < |arr| && !Complete(msgs, arr[..k], id) && Complete(msgs, arr[..k + 1], id)
    ensures arr[k].Frag? && arr[k].id == id && arr[k] !in arr[..k]
  {
    CountBound(msgs[id]);
    assert Frag(id, 0) in arr;
    var n := |arr| - 1;
    assert arr[..n] + [arr[n]] == arr == arr[..n + 1];
    if Complete(msgs, arr[..n], id) {
      FairPrefix(msgs, arr, n);
      k := CompletionPoint(msgs, arr[..n], id);
      assert arr[..n][..k] == arr[..k] && arr[..n][..k + 1] == arr[..k + 1];
    } else {
      k := n;
      var i :| 0 <= i < Count(msgs[id]) && Frag(id, i) !in arr[..n];
      assert Frag(id, i) in arr;
    }
  }

  /**
    Each message whose fragments have all arrived is returned exactly once, unchanged, by the
    arrival of its last missing fragment.
   */
  lemma {:induction false} ExactlyOnce(msgs: Outbox, arr: seq<Arrival>, id: uint32) returns (k: nat)
    requires Fair(msgs, arr) && id in msgs && Complete(msgs, arr, id)
    ensures k < |arr| && arr[k].Frag? && arr[k].id == id && arr[k] !in arr[..k]
    ensures Output(msgs, arr, k) == Some(msgs[id])
    ensures forall j :: 0 <= j < |arr| && j != k && arr[j].Frag? && arr[j].id == id ==> Output(msgs, arr, j).None?
  {
    k := CompletionPoint(msgs, arr, id);
    FairOutput(msgs, arr, k);
    forall j | 0 <= j < |arr| && j != k && arr[j].Frag? && arr[j].id == id ensures Output(msgs, arr, j).None? {
      FairOutput(msgs, arr, j);
      assert FairAt(msgs, arr, j);
      Earlier(msgs, arr, id, j + 1, k);
      Earlier(msgs, arr, id, k + 1, j);
    }
  }

  lemma FairOutput(msgs: Outbox, arr: seq<Arrival>, k: nat)
    requires Fair(msgs, arr) && k < |arr| && arr[k].Frag?
    ensures arr[k].id in msgs
    ensures Output(msgs, arr, k) == if Complete(msgs, arr[..k + 1], arr[k].id) then Some(msgs[arr[k].id]) else None
  {
    OutputIs(msgs, arr, k);
    assert FairAt(msgs, arr, k);
    AllRecent(msgs, arr[..k], arr[k].id);
    assert arr[..k] + [arr[k]] == arr[..k + 1];
  }

  /** A message incomplete at some point was incomplete before. */
  lemma Earlier(msgs: Outbox, arr: seq<Arrival>, id: uint32, m: nat, n: nat)
    requires id in msgs && m <= |arr| && n <= |arr|
    ensures m <= n && Complete(msgs, arr[..m], id) ==> Complete(msgs, arr[..n], id)
  {
    if m <= n {
      assert arr[..n][..m] == arr[..m];
      assert forall x :: x in arr[..m] ==> x in arr[..n];
    }
  }

  /** When every started message is complete, nothing is left in the table. */
  lemma {:induction false} TableEmptied(msgs: Outbox, arr: seq<Arrival>)
    requires Fair(msgs, arr) && forall id :: id in msgs && Started(arr, id) ==> Complete(msgs, arr, id)
    ensures After(msgs, arr) == map[]
  {
    TableEmptyIff(msgs, arr);
    forall id | id in msgs ensures !Started(Recent(msgs, arr, id), id) {
      if Complete(msgs, arr, id) { NothingRecent(msgs, arr, id); } else { AllRecent(msgs, arr, id); }
    }
  }

  lemma {:induction false} NothingRecent(msgs: Outbox, arr: seq<Arrival>, id: uint32)
    requires Fair(msgs, arr) && id in msgs && Complete(msgs, arr, id)
    ensures !Started(Recent(msgs, arr, id), id)
  {
    CountBound(msgs[id]);
    assert Frag(id, 0) in arr;
    var n := |arr| - 1;
    assert arr[..n] + [arr[n]] == arr;
    FairPrefix(msgs, arr, n);
    if Complete(msgs, arr[..n], id) {
      NothingRecent(msgs, arr[..n], id);
      assert FairAt(msgs, arr, n) && GenuineAt(msgs, arr, n);
      var r := Recent(msgs, arr[..n], id);
      assert forall i: nat :: Frag(id, i) in r + [arr[n]] <==> Frag(id, i) in r;
    } else {
      AllRecent(msgs, arr[..n], id);
    }
  }

  // ----- one message through an empty table

  /** The messages Receive returns for a list of datagrams, in order. */
  function Received(t: Messages, ds: seq<seq<byte>>): seq<seq<byte>>
    decreases |ds|
  {
    if ds == [] then []
    else
      var o := Deliver(t, ds[0]);
      (if o.delivered.Some? then [o.delivered.value] else []) + Received(o.table, ds[1..])
  }

  function FragmentsFrom(data: seq<byte>, id: uint32, from: nat): (r: seq<seq<byte>>)
    requires from <= Count(data) <= 0xFFFF
    ensures |r| == Count(data) - from
    ensures forall i :: 0 <= i < |r| ==> r[i] == Fragment(data, id, from + i)
  {
    seq(Count(data) - from, i requires 0 <= i < Count(data) - from => Fragment(data, id, from + i))
  }

  function FirstFrags(id: uint32, n: nat): (r: seq<Arrival>)
    ensures |r| == n && forall i :: 0 <= i < n ==> r[i] == Frag(id, i)
  {
    seq(n, i requires 0 <= i < n => Frag(id, i))
  }

  lemma FirstComplete(data: seq<byte>, id: uint32, n: nat)
    requires n <= Count(data)
    ensures Complete(map[id := data], FirstFrags(id, n), id) <==> n == Count(data)
    ensures n < Count(data) ==> FirstFrags(id, n) + [Frag(id, n)] == FirstFrags(id, n + 1)
  {
    var arr := FirstFrags(id, n);
    assert forall i :: 0 <= i < n ==> arr[i] == Frag(id, i);
    assert Frag(id, n) !in arr;
  }

  /** Fragment k in order: it is tracked, and only the last one delivers. */
  lemma InOrderStep(data: seq<byte>, id: uint32, k: nat, t: Messages, ds: seq<seq<byte>>) returns (next: Messages)
    requires |data| <= MAX_MESSAGE && k < Count(data) && Tracks(map[id := data], FirstFrags(id, k), t)
    ensures Tracks(map[id := data], FirstFrags(id, k + 1), next)
    ensures Received(t, [Fragment(data, id, k)] + ds)
         == (if k + 1 == Count(data) then [data] else []) + Received(next, ds)
  {
    var msgs := map[id := data];
    CountBound(data);
    FirstComplete(data, id, k);
    FirstComplete(data, id, k + 1);
    AllRecent(msgs, FirstFrags(id, k), id);
    TrackFrag(msgs, FirstFrags(id, k), t, id, k);
    next := Deliver(t, Fragment(data, id, k)).table;
    ReceivedStep(t, Fragment(data, id, k), ds);
  }

  lemma ReceivedStep(t: Messages, d: seq<byte>, ds: seq<seq<byte>>)
    ensures var o := Deliver(t, d);
            Received(t, [d] + ds) == (if o.delivered.Some? then [o.delivered.value] else []) + Received(o.table, ds)
  {
    assert ([d] + ds)[1..] == ds;
  }

  lemma FirstFragment(data: seq<byte>, id: uint32, k: nat)
    requires k < Count(data) <= 0xFFFF
    ensures FragmentsFrom(data, id, k) == [Fragment(data, id, k)] + FragmentsFrom(data, id, k + 1)
  {
  }

  /** In order, from fragment k on: nothing until the last one, then the message. */
  lemma {:induction false} ReceiveInOrder(data: seq<byte>, id: uint32, k: nat, t: Messages)
    requires |data| <= MAX_MESSAGE && k <= Count(data) && Tracks(map[id := data], FirstFrags(id, k), t)
    ensures Received(t, FragmentsFrom(data, id, k)) == if k < Count(data) then [data] else []
    decreases Count(data) - k
  {
    if k < Count(data) {
      var ds := FragmentsFrom(data, id, k + 1);
      FirstFragment(data, id, k);
      var next := InOrderStep(data, id, k, t, ds);
      ReceiveInOrder(data, id, k + 1, next);
    }
  }

  lemma ReceiveFragments(data: seq<byte>, id: uint32)
    requires 0 < |data| <= MAX_MESSAGE
    ensures Received(map[], FragmentsFrom(data, id, 0)) == [data]
  {
    var arr := FirstFrags(id, 0);
    assert Tracks(map[id := data], arr, map[]) by {
      assert !Started(arr, id);
    }
    ReceiveInOrder(data, id, 0, map[]);
  }

  /** The part of a message that Send's uint16 fragment count covers. */
  function Covered(data: seq<byte>): seq<byte> {
    var end := Count(data) % 0x1_0000 * MAX_PAYLOAD;
    if end > |data| then data else data[..end]
  }

  lemma CoveredPiece(data: seq<byte>, i: nat)
    requires |data| > MAX_PAYLOAD && i < Count(data) % 0x1_0000
    ensures Piece(data, i) == Piece(Covered(data), i)
  {
    var c, count := Covered(data), Count(data) % 0x1_0000;
    if c != data {
      assert (i + 1) * MAX_PAYLOAD <= count * MAX_PAYLOAD == |c| <= |data|;
      assert c[i * MAX_PAYLOAD..(i + 1) * MAX_PAYLOAD] == data[i * MAX_PAYLOAD..(i + 1) * MAX_PAYLOAD];
    }
  }

  lemma SentCovers(data: seq<byte>, id: uint32)
    requires |data| > MAX_PAYLOAD && Count(data) % 0x1_0000 > 0
    ensures var c := Covered(data);
            && 0 < |c| && Count(c) == Count(data) % 0x1_0000 && Sent(data, id) == FragmentsFrom(c, id, 0)
    ensures Covered(data) == data <==> |data| <= MAX_MESSAGE
  {
    assert Count(Covered(data)) == Count(data) % 0x1_0000;
    forall i: nat | i < Count(data) % 0x1_0000 ensures Piece(data, i) == Piece(Covered(data), i) {
      CoveredPiece(data, i);
    }
  }

  /**
    Exactly which messages survive Send and Receive: short ones that do not happen to look like a
    fragment, and long ones of at most 65535 fragments. A longer one is silently cut, or lost.
   */
  lemma {:induction false} SendRoundTrip(data: seq<byte>, id: uint32)
    ensures Received(map[], Sent(data, id)) == [data]
       <==> if |data| <= MAX_PAYLOAD then Decode(data).None? else |data| <= MAX_MESSAGE
  {
    if |data| <= MAX_PAYLOAD {
      var o := Deliver(map[], data);
      assert [data][1..] == [];
      if Decode(data).Some? {
        var (h, payload) := Decode(data).value;
        assert |payload| < |data|;
        if h.count == 1 {
          OneSlot(payload);
        }
      }
    } else if Count(data) % 0x1_0000 > 0 {
      SentCovers(data, id);
      ReceiveFragments(Covered(data), id);
    }
  }

  lemma OneSlot(payload: seq<byte>)
    ensures Join(Blank(1)[0 := Some(payload)]) == payload
  {
    assert Blank(1)[0 := Some(payload)][1..] == [];
  }

  // ----- the reassembler object

  class Reassembler {
    var messages: Messages

    constructor ()
      ensures messages == map[]
    {
      messages := map[];
    }

    method AddFragment(h: Header, data: seq<byte>) returns (r: Option<seq<byte>>)
      modifies this
      ensures Outcome(messages, r) == Add(old(messages), h, data)
    {
      if h.id !in messages {
        messages := messages[h.id := Partial(Blank(h.count), 0)];
      }
      var msg := messages[h.id];
      if |msg.slots| != h.count {
        messages := messages - {h.id};
        return None;
      }
      if h.index >= |msg.slots| { return None; }
      if msg.slots[h.index].Some? { return None; }
      msg := Partial(msg.slots[h.index := Some(data)], msg.received + 1);
      messages := messages[h.id := msg];
      if msg.received == h.count {
        messages := messages - {h.id};
        var result := Assemble(msg.slots);
        return Some(result);
      }
      return None;
    }

    static method Assemble(slots: Slots) returns (result: seq<byte>)
      ensures result == Join(slots)
    {
      result := [];
      for i := 0 to |slots|
        invariant Join(slots) == result + Join(slots[i..])
      {
        var piece := if slots[i].Some? then slots[i].value else [];
        assert slots[i..][0] == slots[i] && slots[i..][1..] == slots[i + 1..];
        assert result + (piece + Join(slots[i + 1..])) == (result + piece) + Join(slots[i + 1..]);
        result := result + piece;
      }
    }

    /** Takes datagrams until one of them yields a message; None when they run out. */
    method Receive(ds: seq<seq<byte>>) returns (msg: Option<seq<byte>>, used: nat)
      modifies this
      ensures used <= |ds|
      ensures msg.Some? ==> Received(old(messages), ds) == [msg.value] + Received(messages, ds[used..])
      ensures msg.None? ==> used == |ds| && Received(old(messages), ds) == []
    {
      used := 0;
      while used < |ds|
        invariant used <= |ds| && Received(old(messages), ds) == Received(messages, ds[used..])
      {
        var d := ds[used];
        assert ds[used..][0] == d && ds[used..][1..] == ds[used + 1..];
        used := used + 1;
        var f := Decode(d);
        if f.None? { return Some(d), used; }
        var r := AddFragment(f.value.0, f.value.1);
        if r.Some? { return r, used; }
      }
      return None, used;
    }
  }
}
