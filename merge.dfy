/**
 * The merge of fetched history into the client's list (`fetchMessages`):
 * the held messages go into an insertion-ordered map by id, each fetched
 * message is upserted under the key of the held message it matches (by
 * client token, else by id) or under its own id, and the values are
 * cleaned, sorted by id and returned, unless the id sequence did not
 * change, in which case the held list is returned as it was.
 */
module Merge {
  import opened Wrappers
  import opened Js
  import opened Seqs
  import opened Reconcile

  /** One key/value pair of a JavaScript `Map`; the sequence keeps insertion order. */
  datatype Entry = Entry(key: MsgId, val: Msg)

  type Entries = seq<Entry>

  ghost predicate DistinctKeys(e: Entries) {
    forall i, j :: 0 <= i < j < |e| ==> e[i].key != e[j].key
  }

  function KeySet(e: Entries): set<MsgId> {
    set x | x in e :: x.key
  }

  /** The position of key `k`. */
  function KeyIndex(e: Entries, k: MsgId): (r: Option<nat>)
    ensures r.Some? ==> r.value < |e| && e[r.value].key == k
    ensures r.None? ==> k !in KeySet(e)
  {
    if e == [] then None
    else if e[|e| - 1].key == k then Some(|e| - 1)
    else
      var r := KeyIndex(e[..|e| - 1], k);
      assert forall x :: x in e ==> x in e[..|e| - 1] || x == e[|e| - 1];
      r
  }

  /** `map.set(k, v)`: a present key keeps its place and takes the new value; a new key goes last. */
  function Put(e: Entries, k: MsgId, v: Msg): (r: Entries)
    requires DistinctKeys(e)
    ensures DistinctKeys(r)
    ensures KeySet(r) == KeySet(e) + {k}
    ensures k in KeySet(e) ==> |r| == |e|
    ensures k !in KeySet(e) ==> r == e + [Entry(k, v)]
    ensures forall i :: 0 <= i < |e| ==> r[i] == if e[i].key == k then Entry(k, v) else e[i]
  {
    match KeyIndex(e, k)
    case Some(i) =>
      var r := e[i := Entry(k, v)];
      SameKeys(e, r);
      assert e[i] in e;
      r
    case None =>
      var r := e + [Entry(k, v)];
      assert forall x :: x in r ==> x in e || x == Entry(k, v);
      r
  }

  lemma SameKeys(e1: Entries, e2: Entries)
    requires |e1| == |e2| && forall j :: 0 <= j < |e1| ==> e1[j].key == e2[j].key
    ensures KeySet(e1) == KeySet(e2)
  {
    forall y | y in KeySet(e1) ensures y in KeySet(e2) {
      var x :| x in e1 && x.key == y;
      var j :| 0 <= j < |e1| && e1[j] == x;
      assert e2[j] in e2;
    }
    forall y | y in KeySet(e2) ensures y in KeySet(e1) {
      var x :| x in e2 && x.key == y;
      var j :| 0 <= j < |e2| && e2[j] == x;
      assert e1[j] in e1;
    }
  }

  /** `new Map(list.map(m => [m.id, m]))` */
  function FromList(list: seq<Msg>): (e: Entries)
    ensures DistinctKeys(e)
  {
    if list == [] then [] else
      var last := list[|list| - 1];
      Put(FromList(list[..|list| - 1]), last.id, last)
  }

  /** `new Map(list.map(m => [m.id, m]))` used for lookups: the last message with each id. */
  function ByIdMap(list: seq<Msg>): map<MsgId, Msg> {
    if list == [] then map[] else
      var last := list[|list| - 1];
      ByIdMap(list[..|list| - 1])[last.id := last]
  }

  /** The lookup map by client token, over the messages that have one. */
  function ByTokenMap(list: seq<Msg>): map<string, Msg> {
    if list == [] then map[] else
      var last := list[|list| - 1];
      var m := ByTokenMap(list[..|list| - 1]);
      if last.clientId.Some? then m[last.clientId.value := last] else m
  }

  /** The held message a fetched one matches: by client token first, else by id. */
  function Existing(byToken: map<string, Msg>, byId: map<MsgId, Msg>, m: Msg): Option<Msg> {
    if m.clientId.Some? && m.clientId.value in byToken then Some(byToken[m.clientId.value])
    else if m.id in byId then Some(byId[m.id])
    else None
  }

  /**
   * `{ ...existing, ...m, pending: false, failed: false }`: the fetched
   * fields win; a history row has no `roomId`, so the held one stays.
   */
  function Overlay(existing: Msg, m: Msg): Msg {
    m.(roomId := if m.roomId.Some? then m.roomId else existing.roomId, pending := false, failed := false)
  }

  /** Where a fetched message lands, and what is stored there. */
  function Target(byToken: map<string, Msg>, byId: map<MsgId, Msg>, m: Msg): Entry {
    match Existing(byToken, byId, m)
    case Some(x) => Entry(x.id, Overlay(x, m))
    case None => Entry(m.id, m)
  }

  /** The upsert loop over the fetched messages. */
  function UpsertAll(e: Entries, byToken: map<string, Msg>, byId: map<MsgId, Msg>, visible: seq<Msg>): (r: Entries)
    requires DistinctKeys(e)
    ensures DistinctKeys(r)
  {
    if visible == [] then e else
      var t := Target(byToken, byId, visible[|visible| - 1]);
      Put(UpsertAll(e, byToken, byId, visible[..|visible| - 1]), t.key, t.val)
  }

  function Values(e: Entries): (r: seq<Msg>)
    ensures |r| == |e| && forall i :: 0 <= i < |e| ==> r[i] == e[i].val
  {
    seq(|e|, i requires 0 <= i < |e| => e[i].val)
  }

  function Ids(list: seq<Msg>): (r: seq<MsgId>)
    ensures |r| == |list| && forall i :: 0 <= i < |list| ==> r[i] == list[i].id
  {
    seq(|list|, i requires 0 <= i < |list| => list[i].id)
  }

  /** `String(id)` */
  function IdString(id: MsgId): string {
    match id
    case NumId(n) => IntToString(n)
    case TokenId(t) => t
  }

  /** Code-unit order on strings: negative, zero or positive. */
  function StrCompare(a: string, b: string): int
    decreases |a|
  {
    if a == [] && b == [] then 0
    else if a == [] then -1
    else if b == [] then 1
    else if a[0] < b[0] then -1
    else if a[0] > b[0] then 1
    else StrCompare(a[1..], b[1..])
  }

  /** The sort comparator: numeric ids by value, anything else by string. */
  function IdCompare(a: Msg, b: Msg): int {
    if a.id.NumId? && b.id.NumId? then a.id.n - b.id.n
    else StrCompare(IdString(a.id), IdString(b.id))
  }

  function IdOrder(): (Msg, Msg) -> int {
    (a: Msg, b: Msg) => IdCompare(a, b)
  }

  /** The numeric id, the key the list is sorted by once every id is numeric. */
  function IdKey(m: Msg): int {
    if m.id.NumId? then m.id.n else 0
  }

  function IdKeyFn(): Msg -> int {
    (m: Msg) => IdKey(m)
  }

  datatype Merged = Merged(list: seq<Msg>, sorted: seq<Msg>, entries: Entries)

  /** The whole merge, with the intermediate map and the sorted values kept for the lemmas. */
  function MergeSteps(prev: seq<Msg>, visible: seq<Msg>, now: int): Merged {
    var pf := Cleanup(prev, now);
    var e := UpsertAll(FromList(pf), ByTokenMap(pf), ByIdMap(pf), visible);
    var sorted := Sort(Cleanup(Values(e), now), IdOrder());
    Merged(if Ids(pf) == Ids(sorted) then pf else sorted, sorted, e)
  }

  /** The state updater of `fetchMessages`. */
  function MergeFetched(prev: seq<Msg>, visible: seq<Msg>, now: int): seq<Msg> {
    MergeSteps(prev, visible, now).list
  }

  // ---- the map built from the held list ----

  /** The ids a list holds. */
  function IdSet(list: seq<Msg>): set<MsgId> {
    set m | m in list :: m.id
  }

  lemma IdSetAppend(list: seq<Msg>, m: Msg)
    ensures IdSet(list + [m]) == IdSet(list) + {m.id}
  {
    assert forall x :: x in list + [m] <==> x in list || x == m;
  }

  lemma IdSetLast(list: seq<Msg>)
    requires list != []
    ensures IdSet(list) == IdSet(list[..|list| - 1]) + {list[|list| - 1].id}
  {
    assert list == list[..|list| - 1] + [list[|list| - 1]];
    IdSetAppend(list[..|list| - 1], list[|list| - 1]);
  }

  lemma KeySetAppend(e: Entries, x: Entry)
    ensures KeySet(e + [x]) == KeySet(e) + {x.key}
  {
    assert forall y :: y in e + [x] <==> y in e || y == x;
  }

  /** In a list of distinct ids the last id is not among the earlier ones. */
  lemma LastIdFresh(list: seq<Msg>)
    requires DistinctIds(list) && list != []
    ensures DistinctIds(list[..|list| - 1])
    ensures list[|list| - 1].id !in IdSet(list[..|list| - 1])
  {
    var init := list[..|list| - 1];
    forall m | m in init ensures m.id != list[|list| - 1].id {
      var j :| 0 <= j < |init| && init[j] == m;
      assert list[j] == m;
    }
  }

  lemma FromListStep(list: seq<Msg>)
    requires list != []
    ensures FromList(list) == Put(FromList(list[..|list| - 1]), list[|list| - 1].id, list[|list| - 1])
  {
  }

  lemma {:induction false} FromListOfDistinct(list: seq<Msg>)
    requires DistinctIds(list)
    ensures |FromList(list)| == |list|
    ensures forall i :: 0 <= i < |list| ==> FromList(list)[i] == Entry(list[i].id, list[i])
    ensures KeySet(FromList(list)) == IdSet(list)
  {
    if list != [] {
      var init := list[..|list| - 1];
      var last := list[|list| - 1];
      LastIdFresh(list);
      FromListOfDistinct(init);
      var e1 := FromList(init);
      FromListStep(list);
      IdSetLast(list);
      var e := e1 + [Entry(last.id, last)];
      assert FromList(list) == e;
      KeySetAppend(e1, Entry(last.id, last));
      forall i | 0 <= i < |list|
        ensures e[i] == Entry(list[i].id, list[i])
      {
        if i < |init| {
          assert e[i] == e1[i] && init[i] == list[i];
        }
      }
    }
  }

  lemma {:induction false} ByIdMapOfDistinct(list: seq<Msg>)
    requires DistinctIds(list)
    ensures ByIdMap(list).Keys == IdSet(list)
    ensures forall m :: m in list ==> ByIdMap(list)[m.id] == m
    ensures forall k :: k in ByIdMap(list) ==> ByIdMap(list)[k] in list
  {
    if list != [] {
      var init := list[..|list| - 1];
      var last := list[|list| - 1];
      ByIdMapOfDistinct(init);
      forall m | m in init ensures m.id != last.id {
        var j :| 0 <= j < |init| && init[j] == m;
        assert list[j] == m;
      }
      assert forall m :: m in list <==> m in init || m == last;
    }
  }

  lemma {:induction false} ByTokenMapValues(list: seq<Msg>)
    ensures forall c :: c in ByTokenMap(list) ==> ByTokenMap(list)[c] in list && ByTokenMap(list)[c].clientId == Some(c)
    ensures forall m :: m in list && m.clientId.Some? ==> m.clientId.value in ByTokenMap(list)
  {
    if list != [] {
      ByTokenMapValues(list[..|list| - 1]);
      assert forall m :: m in list <==> m in list[..|list| - 1] || m == list[|list| - 1];
    }
  }

  /** A match is always a held message. */
  lemma ExistingIsHeld(list: seq<Msg>, m: Msg)
    ensures Existing(ByTokenMap(list), ByIdMap(list), m).Some? ==> Existing(ByTokenMap(list), ByIdMap(list), m).value in list
    ensures m.id in IdSet(list) ==> Existing(ByTokenMap(list), ByIdMap(list), m).Some?
  {
    ByTokenMapValues(list);
    ByIdMapKeys(list);
  }

  lemma {:induction false} ByIdMapKeys(list: seq<Msg>)
    ensures ByIdMap(list).Keys == IdSet(list)
    ensures forall k :: k in ByIdMap(list) ==> ByIdMap(list)[k] in list && ByIdMap(list)[k].id == k
  {
    if list != [] {
      ByIdMapKeys(list[..|list| - 1]);
      assert forall m :: m in list <==> m in list[..|list| - 1] || m == list[|list| - 1];
    }
  }

  // ---- the upsert loop ----

  /** `v`, at the key of held message `p`, is `p` itself or the overlay of a fetched message that matched `p`. */
  ghost predicate HeldAt(bt: map<string, Msg>, bi: map<MsgId, Msg>, visible: seq<Msg>, p: Msg, v: Msg) {
    v == p || exists m :: m in visible && Existing(bt, bi, m) == Some(p) && v == Overlay(p, m)
  }

  /** What the upsert loop needs to know about the map of the held list and the two lookup maps. */
  ghost predicate HeldMaps(pf: seq<Msg>, e0: Entries, bt: map<string, Msg>, bi: map<MsgId, Msg>) {
    && DistinctIds(pf)
    && |e0| == |pf| && (forall i :: 0 <= i < |pf| ==> e0[i] == Entry(pf[i].id, pf[i]))
    && (forall m :: Existing(bt, bi, m).Some? ==> Existing(bt, bi, m).value in pf)
    && (forall m :: Existing(bt, bi, m).None? ==> forall p :: p in pf ==> p.id != m.id)
  }

  lemma HeldMapsOf(pf: seq<Msg>)
    requires DistinctIds(pf)
    ensures HeldMaps(pf, FromList(pf), ByTokenMap(pf), ByIdMap(pf))
  {
    FromListOfDistinct(pf);
    forall m ensures Existing(ByTokenMap(pf), ByIdMap(pf), m).Some? ==> Existing(ByTokenMap(pf), ByIdMap(pf), m).value in pf {
      ExistingIsHeld(pf, m);
    }
    forall m | Existing(ByTokenMap(pf), ByIdMap(pf), m).None? ensures forall p :: p in pf ==> p.id != m.id {
      ExistingIsHeld(pf, m);
    }
  }

  /**
   * Upserting keeps every key in place; at a key of the held list the value
   * is the held one or the overlay of a fetched message that matched it.
   */
  lemma {:induction false} UpsertKeepsHeld(pf: seq<Msg>, e0: Entries, bt: map<string, Msg>, bi: map<MsgId, Msg>, visible: seq<Msg>)
    requires HeldMaps(pf, e0, bt, bi) && DistinctKeys(e0)
    ensures var e := UpsertAll(e0, bt, bi, visible);
            && |e| >= |e0|
            && forall i :: 0 <= i < |e0| ==> e[i].key == e0[i].key && HeldAt(bt, bi, visible, e0[i].val, e[i].val)
  {
    if visible != [] {
      var init := visible[..|visible| - 1];
      var m := visible[|visible| - 1];
      UpsertKeepsHeld(pf, e0, bt, bi, init);
      var e1 := UpsertAll(e0, bt, bi, init);
      var t := Target(bt, bi, m);
      var e := Put(e1, t.key, t.val);
      forall i | 0 <= i < |e0|
        ensures e[i].key == e0[i].key && HeldAt(bt, bi, visible, e0[i].val, e[i].val)
      {
        if e1[i].key == t.key {
          UpsertHitsHeld(pf, e0, bt, bi, visible, i);
        } else {
          assert e[i] == e1[i];
          if e1[i].val != e0[i].val {
            var w :| w in init && Existing(bt, bi, w) == Some(e0[i].val) && e1[i].val == Overlay(e0[i].val, w);
            assert w in visible;
          }
        }
      }
    }
  }

  /** The last fetched message landing on the key of held message `i` overlays that very message. */
  lemma UpsertHitsHeld(pf: seq<Msg>, e0: Entries, bt: map<string, Msg>, bi: map<MsgId, Msg>, visible: seq<Msg>, i: nat)
    requires HeldMaps(pf, e0, bt, bi)
    requires visible != [] && i < |e0|
    requires Target(bt, bi, visible[|visible| - 1]).key == e0[i].key
    ensures var m := visible[|visible| - 1];
            Existing(bt, bi, m) == Some(pf[i]) && Target(bt, bi, m).val == Overlay(pf[i], m)
  {
    var m := visible[|visible| - 1];
    assert e0[i].key == pf[i].id;
    match Existing(bt, bi, m)
    case Some(x) =>
      var j :| 0 <= j < |pf| && pf[j] == x;
    case None =>
  }

  /** When every fetched message matches a held one, the map gains no entry. */
  lemma {:induction false} UpsertMatchedAddsNothing(pf: seq<Msg>, e0: Entries, bt: map<string, Msg>, bi: map<MsgId, Msg>, visible: seq<Msg>)
    requires HeldMaps(pf, e0, bt, bi) && DistinctKeys(e0)
    requires forall m :: m in visible ==> Existing(bt, bi, m).Some?
    ensures |UpsertAll(e0, bt, bi, visible)| == |e0|
  {
    if visible != [] {
      var init := visible[..|visible| - 1];
      var m := visible[|visible| - 1];
      assert forall x :: x in init ==> x in visible;
      UpsertMatchedAddsNothing(pf, e0, bt, bi, init);
      UpsertKeepsHeld(pf, e0, bt, bi, init);
      var e1 := UpsertAll(e0, bt, bi, init);
      var x := Existing(bt, bi, m).value;
      var j :| 0 <= j < |pf| && pf[j] == x;
      assert e1[j].key == x.id;
      assert e1[j] in e1;
    }
  }

  /** Every value the upsert loop stores is live when the held and fetched messages are. */
  ghost predicate AllLive(e: Entries, now: int) {
    forall i :: 0 <= i < |e| ==> !Expired(e[i].val, now)
  }

  lemma {:induction false} UpsertLive(e: Entries, bt: map<string, Msg>, bi: map<MsgId, Msg>, visible: seq<Msg>, now: int)
    requires DistinctKeys(e)
    requires AllLive(e, now)
    requires forall m :: m in visible ==> !Expired(m, now)
    ensures AllLive(UpsertAll(e, bt, bi, visible), now)
  {
    if visible != [] {
      var init := visible[..|visible| - 1];
      assert forall x :: x in init ==> x in visible;
      UpsertLive(e, bt, bi, init, now);
      var m := visible[|visible| - 1];
      assert m in visible;
      var t := Target(bt, bi, m);
      assert !Expired(t.val, now);
      var e1 := UpsertAll(e, bt, bi, init);
      var r := Put(e1, t.key, t.val);
      forall i | 0 <= i < |r| ensures !Expired(r[i].val, now) {
        if i < |e1| {
          assert !Expired(e1[i].val, now);
          assert r[i] == e1[i] || r[i] == t;
        } else {
          assert r[i] == t;
        }
      }
    }
  }

  lemma PutStores(e: Entries, k: MsgId, v: Msg)
    requires DistinctKeys(e)
    ensures Entry(k, v) in Put(e, k, v)
  {
    var r := Put(e, k, v);
    match KeyIndex(e, k)
    case Some(i) =>
      assert r[i] == Entry(k, v);
    case None =>
      assert r[|e|] == Entry(k, v);
  }

  lemma PutKeeps(e: Entries, k: MsgId, v: Msg, x: Entry)
    requires DistinctKeys(e) && x in e && x.key != k
    ensures x in Put(e, k, v)
  {
    var i :| 0 <= i < |e| && e[i] == x;
    assert Put(e, k, v)[i] == x;
  }

  /** Each fetched message is stored at its target, unless a later one takes the same place. */
  lemma {:induction false} UpsertStoresVisible(e: Entries, bt: map<string, Msg>, bi: map<MsgId, Msg>, visible: seq<Msg>, k: nat)
    requires DistinctKeys(e)
    requires k < |visible|
    requires forall j :: k < j < |visible| ==> Target(bt, bi, visible[j]).key != Target(bt, bi, visible[k]).key
    ensures Target(bt, bi, visible[k]) in UpsertAll(e, bt, bi, visible)
  {
    var init := visible[..|visible| - 1];
    var t := Target(bt, bi, visible[|visible| - 1]);
    var e1 := UpsertAll(e, bt, bi, init);
    if k == |visible| - 1 {
      PutStores(e1, t.key, t.val);
    } else {
      assert init[k] == visible[k];
      forall j | k < j < |init| ensures Target(bt, bi, init[j]).key != Target(bt, bi, init[k]).key {
        assert init[j] == visible[j];
      }
      UpsertStoresVisible(e, bt, bi, init, k);
      PutKeeps(e1, t.key, t.val, Target(bt, bi, visible[k]));
    }
  }

  // ---- the merged list ----

  /** Every value of the merged map is live, so the second cleanup removes nothing. */
  lemma ValuesLive(pf: seq<Msg>, visible: seq<Msg>, now: int)
    requires DistinctIds(pf)
    requires forall p :: p in pf ==> !Expired(p, now)
    requires forall m :: m in visible ==> !Expired(m, now)
    ensures var vals := Values(UpsertAll(FromList(pf), ByTokenMap(pf), ByIdMap(pf), visible));
            Cleanup(vals, now) == vals
  {
    FromListOfDistinct(pf);
    var e0 := FromList(pf);
    assert AllLive(e0, now) by {
      forall i | 0 <= i < |e0| ensures !Expired(e0[i].val, now) {
        assert pf[i] in pf;
      }
    }
    UpsertLive(e0, ByTokenMap(pf), ByIdMap(pf), visible, now);
    var e := UpsertAll(e0, ByTokenMap(pf), ByIdMap(pf), visible);
    var vals := Values(e);
    forall m | m in vals ensures !Expired(m, now) {
      var i :| 0 <= i < |vals| && vals[i] == m;
      assert vals[i] == e[i].val;
      assert !Expired(e[i].val, now);
    }
    FilterAll(vals, Live(now));
  }

  /**
   * The merge never drops a held message that has not expired: it comes
   * back as it was or as the overlay of the fetched message that matched it.
   */
  lemma MergeKeepsHeld(prev: seq<Msg>, visible: seq<Msg>, now: int)
    requires DistinctIds(Cleanup(prev, now))
    requires forall m :: m in visible ==> !Expired(m, now)
    ensures var pf := Cleanup(prev, now);
            var r := MergeFetched(prev, visible, now);
            forall p :: p in pf ==>
              p in r || exists m :: m in visible && Existing(ByTokenMap(pf), ByIdMap(pf), m) == Some(p) && Overlay(p, m) in r
  {
    var pf := Cleanup(prev, now);
    var s := MergeSteps(prev, visible, now);
    if s.list != pf {
      var bt := ByTokenMap(pf);
      var bi := ByIdMap(pf);
      var e0 := FromList(pf);
      HeldMapsOf(pf);
      UpsertKeepsHeld(pf, e0, bt, bi, visible);
      ValuesLive(pf, visible, now);
      var e := UpsertAll(e0, bt, bi, visible);
      assert s.sorted == Sort(Values(e), IdOrder());
      HeldSorted(pf, Values(e), bt, bi, visible);
    }
  }

  /** Held messages found, as they were or overlaid, in a list stay in that list once sorted. */
  lemma HeldSorted(pf: seq<Msg>, vals: seq<Msg>, bt: map<string, Msg>, bi: map<MsgId, Msg>, visible: seq<Msg>)
    requires |vals| >= |pf|
    requires forall i :: 0 <= i < |pf| ==> HeldAt(bt, bi, visible, pf[i], vals[i])
    ensures forall p :: p in pf ==>
              p in Sort(vals, IdOrder()) || exists m :: m in visible && Existing(bt, bi, m) == Some(p) && Overlay(p, m) in Sort(vals, IdOrder())
  {
    forall p | p in pf
      ensures p in Sort(vals, IdOrder()) || exists m :: m in visible && Existing(bt, bi, m) == Some(p) && Overlay(p, m) in Sort(vals, IdOrder())
    {
      var i :| 0 <= i < |pf| && pf[i] == p;
      assert HeldAt(bt, bi, visible, p, vals[i]);
      InSorted(vals, i);
    }
  }

  lemma InSorted(vals: seq<Msg>, i: nat)
    requires i < |vals|
    ensures vals[i] in Sort(vals, IdOrder())
  {
    assert vals[i] in multiset(vals);
  }

  /** When every fetched message matches a held one, the list does not grow. */
  lemma MergeMatchedKeepsLength(prev: seq<Msg>, visible: seq<Msg>, now: int)
    requires DistinctIds(Cleanup(prev, now))
    requires forall m :: m in visible ==> !Expired(m, now)
    requires forall m :: m in visible ==> Existing(ByTokenMap(Cleanup(prev, now)), ByIdMap(Cleanup(prev, now)), m).Some?
    ensures |MergeFetched(prev, visible, now)| == |Cleanup(prev, now)|
  {
    var pf := Cleanup(prev, now);
    var s := MergeSteps(prev, visible, now);
    HeldMapsOf(pf);
    UpsertMatchedAddsNothing(pf, FromList(pf), ByTokenMap(pf), ByIdMap(pf), visible);
    ValuesLive(pf, visible, now);
  }

  /**
   * A fetched message whose place no later fetched message takes is in the
   * merged list, unless the merge returned the held list because no id changed.
   */
  lemma MergeShowsFetched(prev: seq<Msg>, visible: seq<Msg>, now: int, k: nat)
    requires k < |visible|
    requires forall m :: m in visible ==> !Expired(m, now)
    requires var pf := Cleanup(prev, now);
             forall j :: k < j < |visible| ==>
               Target(ByTokenMap(pf), ByIdMap(pf), visible[j]).key != Target(ByTokenMap(pf), ByIdMap(pf), visible[k]).key
    ensures var pf := Cleanup(prev, now);
            var s := MergeSteps(prev, visible, now);
            s.list == s.sorted ==> Target(ByTokenMap(pf), ByIdMap(pf), visible[k]).val in s.list
  {
    var pf := Cleanup(prev, now);
    var s := MergeSteps(prev, visible, now);
    var t := Target(ByTokenMap(pf), ByIdMap(pf), visible[k]);
    UpsertStoresVisible(FromList(pf), ByTokenMap(pf), ByIdMap(pf), visible, k);
    assert t.val in Values(s.entries);
    assert !Expired(t.val, now) by {
      assert visible[k] in visible;
    }
    assert t.val in multiset(s.sorted);
  }

  /** On numeric ids the comparator ranks by id. */
  lemma IdOrderRanks(list: seq<Msg>)
    requires forall m :: m in list ==> m.id.NumId?
    ensures RanksBy(list, IdOrder(), IdKeyFn())
  {
  }

  /** Once every id is numeric, the merged list is in ascending id order. */
  lemma MergeSorted(prev: seq<Msg>, visible: seq<Msg>, now: int)
    requires forall m :: m in prev ==> m.id.NumId?
    requires forall m :: m in visible ==> m.id.NumId?
    ensures Ascending(MergeFetched(prev, visible, now), IdKeyFn())
  {
    var pf := Cleanup(prev, now);
    var s := MergeSteps(prev, visible, now);
    var e := s.entries;
    var vals := Cleanup(Values(e), now);
    assert forall m :: m in vals ==> m.id.NumId? by {
      forall m | m in vals ensures m.id.NumId? {
        assert m in Values(e);
        var i :| 0 <= i < |e| && e[i].val == m;
        NumericValues(pf, visible, i);
      }
    }
    IdOrderRanks(vals);
    SortAscending(vals, IdOrder(), IdKeyFn());
    if s.list == pf {
      assert Ids(pf) == Ids(s.sorted);
      forall i, j | 0 <= i < j < |pf| ensures IdKey(pf[i]) <= IdKey(pf[j]) {
        assert pf[i].id == s.sorted[i].id && pf[j].id == s.sorted[j].id;
      }
    }
  }

  lemma {:induction false} NumericValues(pf: seq<Msg>, visible: seq<Msg>, i: nat)
    requires forall m :: m in pf ==> m.id.NumId?
    requires forall m :: m in visible ==> m.id.NumId?
    requires i < |UpsertAll(FromList(pf), ByTokenMap(pf), ByIdMap(pf), visible)|
    ensures UpsertAll(FromList(pf), ByTokenMap(pf), ByIdMap(pf), visible)[i].val.id.NumId?
  {
    if visible == [] {
      FromListNumeric(pf, i);
    } else {
      var init := visible[..|visible| - 1];
      var m := visible[|visible| - 1];
      var e1 := UpsertAll(FromList(pf), ByTokenMap(pf), ByIdMap(pf), init);
      var t := Target(ByTokenMap(pf), ByIdMap(pf), m);
      assert m in visible;
      if i < |e1| && e1[i].key != t.key {
        assert forall x :: x in init ==> x in visible;
        NumericValues(pf, init, i);
      }
    }
  }

  lemma {:induction false} FromListNumeric(list: seq<Msg>, i: nat)
    requires forall m :: m in list ==> m.id.NumId?
    requires i < |FromList(list)|
    ensures FromList(list)[i].val.id.NumId?
  {
    var init := list[..|list| - 1];
    var last := list[|list| - 1];
    assert last in list;
    if i < |FromList(init)| && FromList(init)[i].key != last.id {
      assert forall x :: x in init ==> x in list;
      FromListNumeric(init, i);
    }
  }

  /**
   * When no id changes the merge hands back the held list itself, so the
   * flags it holds survive a fetch that carries the same message: a held
   * message marked failed stays failed.
   */
  lemma UnchangedIdsKeepFlags(held: Msg, fetched: Msg, now: int)
    requires held.id == fetched.id && held.clientId == fetched.clientId && held.id.NumId?
    requires !Expired(held, now) && !Expired(fetched, now)
    requires held.failed
    ensures MergeFetched([held], [fetched], now) == [held]
  {
    var pf := Cleanup([held], now);
    assert pf == [held];
    var v := Overlay(held, fetched);
    SingleUpsert(held, fetched);
    var s := MergeSteps([held], [fetched], now);
    assert Values([Entry(held.id, v)]) == [v];
    assert Cleanup([v], now) == [v];
    assert Sort([v], IdOrder()) == [v];
    assert s.sorted == [v];
    assert Ids(pf) == Ids(s.sorted);
  }

  lemma SingleUpsert(held: Msg, fetched: Msg)
    requires held.id == fetched.id && held.clientId == fetched.clientId
    ensures UpsertAll(FromList([held]), ByTokenMap([held]), ByIdMap([held]), [fetched]) == [Entry(held.id, Overlay(held, fetched))]
  {
    var e0 := FromList([held]);
    FromListOfDistinct([held]);
    assert e0 == [Entry(held.id, held)];
    assert e0[0] in e0;
    var bt := ByTokenMap([held]);
    var bi := ByIdMap([held]);
    assert [held][..0] == [];
    assert Existing(bt, bi, fetched) == Some(held);
    assert [fetched][..0] == [];
    assert UpsertAll(e0, bt, bi, []) == e0;
  }
}
