/**
 The responders of one endpoint: what a batch add or remove is supposed to do to them, and
 the tree that does it step by step, undoing a batch that fails half way.
 */
module ResponderStore {
  import opened Wire
  import opened Responders

  datatype Status = Ok | Invalid | NotFound | NoMem | Exists

  /** What a freshly allocated cell holds in the fields its creator does not set. */
  datatype Junk = Junk(binding: Uid, control: u16)

  /** A physical responder as configured by the application. */
  datatype PhysicalResponder = PhysicalResponder(uid: Uid, control: u16, binding: Uid)

  function Min(a: nat, b: nat): (m: nat) {
    if a < b then a else b
  }

  // The cells an add creates, as far as the allocator supplies memory for them.

  function StaticCells(uids: seq<Uid>, mem: seq<Junk>): (r: seq<Responder>)
    ensures |r| == Min(|uids|, |mem|)
  {
    seq(Min(|uids|, |mem|),
        i requires 0 <= i < Min(|uids|, |mem|) => Responder(NULL_RID, uids[i], mem[i].binding, mem[i].control))
  }

  function DynamicCells(manu: u16, rids: seq<Uuid>, mem: seq<Junk>): (r: seq<Responder>)
    ensures |r| == Min(|rids|, |mem|)
  {
    seq(Min(|rids|, |mem|),
        i requires 0 <= i < Min(|rids|, |mem|) =>
          Responder(rids[i], DynamicUidRequest(manu), mem[i].binding, mem[i].control))
  }

  /** A physical responder as it is stored. */
  function PhysicalCell(p: PhysicalResponder): (r: Responder) {
    Responder(NULL_RID, p.uid, p.binding, p.control)
  }

  function PhysicalCells(ps: seq<PhysicalResponder>, grants: nat): (r: seq<Responder>)
    ensures |r| == Min(|ps|, grants)
  {
    seq(Min(|ps|, grants),
        i requires 0 <= i < Min(|ps|, grants) => PhysicalCell(ps[i]))
  }

  // ----- specification of the batch operations

  /**
   None of the first `n` keys of the batch is taken, neither by the store nor by an earlier
   member of the batch.
   */
  ghost predicate Fresh(cells: seq<Responder>, news: seq<Responder>, n: nat)
    requires n <= |news|
  {
    && (forall i :: 0 <= i < n ==> KeyOf(news[i]) !in Keys(cells))
    && (forall i, j :: 0 <= i < j < n ==> KeyOf(news[i]) != KeyOf(news[j]))
  }

  /** The store with the first `n` members of the batch inserted. */
  function InsertFirst(cells: seq<Responder>, news: seq<Responder>, n: nat): (r: seq<Responder>)
    requires n <= |news|
    ensures forall x :: x in r <==> x in cells || exists i :: 0 <= i < n && news[i] == x
  {
    if n == 0 then cells
    else InsertSorted(InsertFirst(cells, news, n - 1), news[n - 1])
  }

  ghost function UidKeys(uids: seq<Uid>): (ks: set<Key>) {
    set u | u in uids :: ByUid(u)
  }

  ghost function RidKeys(rids: seq<Uuid>): (ks: set<Key>) {
    set r | r in rids :: ByRid(r)
  }

  /** The cells whose keys are not in `ks`, order kept. */
  ghost function Without(cells: seq<Responder>, ks: set<Key>): (r: seq<Responder>)
    ensures forall x :: x in r <==> x in cells && KeyOf(x) !in ks
  {
    if cells == [] then []
    else if KeyOf(cells[0]) in ks then Without(cells[1..], ks)
    else [cells[0]] + Without(cells[1..], ks)
  }

  datatype Batch = Batch(status: Status, cells: seq<Responder>)

  /** All or nothing: `short` says that memory ran out after `news`. */
  ghost function BatchAdd(cells: seq<Responder>, news: seq<Responder>, short: bool): (b: Batch) {
    if !Fresh(cells, news, |news|) then Batch(Exists, cells)
    else if short then Batch(NoMem, cells)
    else Batch(Ok, InsertFirst(cells, news, |news|))
  }

  // ----- laws of the specification

  lemma {:induction false} InsertFirstKeys(cells: seq<Responder>, news: seq<Responder>, n: nat, k: Key)
    requires n <= |news|
    ensures k in Keys(InsertFirst(cells, news, n))
       <==> k in Keys(cells) || exists i :: 0 <= i < n && KeyOf(news[i]) == k
  {
    var r := InsertFirst(cells, news, n);
    if i :| 0 <= i < n && KeyOf(news[i]) == k { assert news[i] in r; }
    if k in Keys(cells) {
      var x :| x in cells && KeyOf(x) == k;
      assert x in r;
    }
  }

  /** After `n` successful inserts the next one succeeds exactly when the batch stays fresh. */
  lemma {:induction false} FreshExtends(cells: seq<Responder>, news: seq<Responder>, n: nat)
    requires n < |news| && Fresh(cells, news, n)
    ensures Fresh(cells, news, n + 1) <==> KeyOf(news[n]) !in Keys(InsertFirst(cells, news, n))
    ensures !Fresh(cells, news, n + 1) ==> !Fresh(cells, news, |news|)
  {
    InsertFirstKeys(cells, news, n, KeyOf(news[n]));
  }

  lemma {:induction false} InsertFirstKeepsSorted(cells: seq<Responder>, news: seq<Responder>, n: nat)
    requires n <= |news| && Sorted(cells) && Fresh(cells, news, n)
    ensures Sorted(InsertFirst(cells, news, n))
  {
    if n > 0 {
      InsertFirstKeepsSorted(cells, news, n - 1);
      assert KeyOf(news[n - 1]) !in Keys(InsertFirst(cells, news, n - 1)) by { FreshExtends(cells, news, n - 1); }
      InsertKeepsSorted(InsertFirst(cells, news, n - 1), news[n - 1]);
    }
  }

  lemma {:induction false} WithoutKeepsSorted(cells: seq<Responder>, ks: set<Key>)
    requires Sorted(cells)
    ensures Sorted(Without(cells, ks))
  {
    if cells != [] {
      var rest := Without(cells[1..], ks);
      WithoutKeepsSorted(cells[1..], ks);
      var r := [cells[0]] + rest;
      forall i, j | 0 <= i < j < |r| ensures Compare(r[i], r[j]) < 0 {
        if i == 0 {
          assert r[j] in rest;
          var k :| 0 <= k < |cells[1..]| && cells[1..][k] == r[j];
          assert Compare(cells[0], cells[k + 1]) < 0;
        }
      }
    }
  }

  /** Ordered sequences with the same members are equal. */
  lemma {:induction false} SameMembers(a: seq<Responder>, b: seq<Responder>)
    requires Sorted(a) && Sorted(b)
    requires forall x :: x in a <==> x in b
    ensures a == b
  {
    SortedIsCanonical(a, b);
  }

  /** One guided removal is the filter on one key. */
  lemma {:induction false} RemoveKeyIsWithout(cells: seq<Responder>, key: Responder)
    requires Sorted(cells)
    ensures RemoveKey(cells, key) == Without(cells, {KeyOf(key)})
  {
    RemoveKeyRemovesKey(cells, key);
    WithoutKeepsSorted(cells, {KeyOf(key)});
    SameMembers(RemoveKey(cells, key), Without(cells, {KeyOf(key)}));
  }

  lemma {:induction false} WithoutTwice(cells: seq<Responder>, a: set<Key>, b: set<Key>)
    requires Sorted(cells)
    ensures Without(Without(cells, a), b) == Without(cells, a + b)
  {
    WithoutKeepsSorted(cells, a);
    WithoutKeepsSorted(Without(cells, a), b);
    WithoutKeepsSorted(cells, a + b);
    SameMembers(Without(Without(cells, a), b), Without(cells, a + b));
  }

  ghost function KeysOfFirst(news: seq<Responder>, n: nat): (ks: set<Key>)
    requires n <= |news|
  {
    set i | 0 <= i < n :: KeyOf(news[i])
  }

  /** Taking back what was just added leaves what was there, and nothing of that is lost. */
  lemma {:induction false} WithoutUndoesInsert(cells: seq<Responder>, news: seq<Responder>, n: nat)
    requires n <= |news| && Sorted(cells) && Fresh(cells, news, n)
    ensures Without(InsertFirst(cells, news, n), KeysOfFirst(news, n)) == cells
  {
    InsertFirstKeepsSorted(cells, news, n);
    var back := Without(InsertFirst(cells, news, n), KeysOfFirst(news, n));
    WithoutKeepsSorted(InsertFirst(cells, news, n), KeysOfFirst(news, n));
    forall x ensures x in back <==> x in cells {
      if x in cells {
        assert KeyOf(x) in Keys(cells);
      }
    }
    SameMembers(back, cells);
  }

  // ----- UIDs written in place

  /** One entry of a broker's dynamic UID assignment list. */
  datatype Mapping = Mapping(ok: bool, rid: Uuid, uid: Uid)

  /** What the last successful mapping for `rid` among the first `n` assigns, if there is one. */
  function LastOk(ms: seq<Mapping>, n: nat, rid: Uuid): (r: Option<Uid>)
    requires n <= |ms|
    ensures r.Some? <==> exists j :: 0 <= j < n && ms[j].ok && ms[j].rid == rid
  {
    if n == 0 then None
    else if ms[n - 1].ok && ms[n - 1].rid == rid then Some(ms[n - 1].uid)
    else LastOk(ms, n - 1, rid)
  }

  function AssignCell(r: Responder, ms: seq<Mapping>, n: nat): (r': Responder)
    requires n <= |ms|
    ensures KeyOf(r') == KeyOf(r)
  {
    if IsDynamic(r) && LastOk(ms, n, r.rid).Some? then r.(uid := LastOk(ms, n, r.rid).value) else r
  }

  /** The last successful mapping per RID wins; responders without a RID are not touched. */
  function Assigned(cells: seq<Responder>, ms: seq<Mapping>, n: nat): (r: seq<Responder>)
    requires n <= |ms|
    ensures |r| == |cells|
  {
    seq(|cells|, i requires 0 <= i < |cells| => AssignCell(cells[i], ms, n))
  }

  /** How many of the first `n` mappings are successful and name a responder in the store. */
  function Matches(cells: seq<Responder>, ms: seq<Mapping>, n: nat): (k: nat)
    requires n <= |ms|
    ensures k <= n
  {
    if n == 0 then 0
    else Matches(cells, ms, n - 1) + if ms[n - 1].ok && FindByRid(cells, ms[n - 1].rid).Some? then 1 else 0
  }

  lemma {:induction false} MatchesMeans(cells: seq<Responder>, ms: seq<Mapping>, n: nat)
    requires n <= |ms|
    ensures Matches(cells, ms, n) > 0 <==> exists j :: 0 <= j < n && ms[j].ok && FindByRid(cells, ms[j].rid).Some?
  {
    if n > 0 {
      MatchesMeans(cells, ms, n - 1);
    }
  }

  function ResetCell(r: Responder, manu: u16): (r': Responder)
    ensures KeyOf(r') == KeyOf(r)
  {
    if IsDynamic(r) then r.(uid := DynamicUidRequest(manu)) else r
  }

  /** Every dynamic responder waits for a UID again. */
  function Reset(cells: seq<Responder>, manu: u16): (r: seq<Responder>)
    ensures |r| == |cells|
  {
    seq(|cells|, i requires 0 <= i < |cells| => ResetCell(cells[i], manu))
  }

  /** Writing UIDs in place cannot disturb the order as long as no key changes. */
  lemma {:induction false} SameKeysSameOrder(a: seq<Responder>, b: seq<Responder>)
    requires |a| == |b| && Sorted(a)
    requires forall i :: 0 <= i < |a| ==> KeyOf(a[i]) == KeyOf(b[i])
    ensures Sorted(b)
    ensures Keys(a) == Keys(b)
    ensures forall key :: Find(a, key) == Find(b, key)
  {
    forall i, j | 0 <= i < j < |b| ensures Compare(b[i], b[j]) < 0 {
      CompareUsesKeys(a[i], b[i], a[j]);
      CompareUsesKeys(a[j], b[j], b[i]);
      assert Compare(a[i], a[j]) < 0;
    }
    forall k ensures k in Keys(a) <==> k in Keys(b) {
      if k in Keys(a) {
        var i :| 0 <= i < |a| && KeyOf(a[i]) == k;
        assert b[i] in b;
      }
      if k in Keys(b) {
        var i :| 0 <= i < |b| && KeyOf(b[i]) == k;
        assert a[i] in a;
      }
    }
    forall key ensures Find(a, key) == Find(b, key) {
      FindIsLinearScan(a, key);
      FindIsLinearScan(b, key);
      if Find(a, key).Some? { assert KeyOf(b[Find(a, key).value]) == KeyOf(key); }
    }
  }

  // ----- what a controller is told

  /** The UIDs reported for an endpoint: in order, without those still to be assigned. */
  function Visible(cells: seq<Responder>): (r: seq<Uid>)
    ensures |r| <= |cells|
  {
    if cells == [] then []
    else
      var rest := Visible(cells[..|cells| - 1]);
      var last := cells[|cells| - 1].uid;
      if IsDynamicUidRequest(last) then rest else rest + [last]
  }

  lemma {:induction false} VisibleAppend(cells: seq<Responder>, r: Responder)
    ensures Visible(cells + [r]) == Visible(cells) + if IsDynamicUidRequest(r.uid) then [] else [r.uid]
  {
    assert (cells + [r])[..|cells|] == cells;
  }
}
