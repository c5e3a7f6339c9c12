/**
 RDM responders and the ordered store that holds the responders of one endpoint.

 The library keeps them in a balanced search tree. The tree is modelled by its in-order
 sequence of cells; lookups navigate it by comparison, so they are only right while the
 sequence is ordered.
 */
module Responders {
  import opened Wire

  type Uuid = b: seq<byte> | |b| == 16 witness seq(16, _ => 0)

  datatype Uid = Uid(manu: u16, id: u32)

  datatype Responder = Responder(rid: Uuid, uid: Uid, binding: Uid, control: u16)

  datatype Option<T> = None | Some(value: T)

  const NULL_RID: Uuid := [0, 0, 0, 0, 0, 0, 0, 0, 0, 0, 0, 0, 0, 0, 0, 0]

  /** The UID a responder carries until the broker has assigned it one. */
  function DynamicUidRequest(manu: u16): (u: Uid)
    ensures IsDynamicUidRequest(u)
  {
    Uid(if manu >= 0x8000 then manu else manu + 0x8000, 0)
  }

  predicate IsDynamicUidRequest(u: Uid) {
    u.manu >= 0x8000 && u.id == 0
  }

  predicate IsDynamic(r: Responder) {
    r.rid != NULL_RID
  }

  // ----- ordering

  /** The sign of the first difference at or after byte `at`. */
  function Memcmp(a: Uuid, b: Uuid, at: nat): (r: int)
    requires at <= 16
    decreases 16 - at
  {
    if at == 16 then 0
    else if a[at] != b[at] then Sign(a[at], b[at])
    else Memcmp(a, b, at + 1)
  }

  function Sign(x: int, y: int): (r: int) {
    if x > y then 1 else if x < y then -1 else 0
  }

  /** The comparison the tree is ordered by: RIDs first, UIDs only when both RIDs are null. */
  function Compare(a: Responder, b: Responder): (r: int)
  {
    var res := Memcmp(a.rid, b.rid, 0);
    if res == 0 && a.rid == NULL_RID then
      var manu := Sign(a.uid.manu, b.uid.manu);
      if manu == 0 then Sign(a.uid.id, b.uid.id) else manu
    else
      res
  }

  /** What identifies a responder on an endpoint. */
  datatype Key = ByUid(uid: Uid) | ByRid(rid: Uuid)

  function KeyOf(r: Responder): (k: Key) {
    if r.rid == NULL_RID then ByUid(r.uid) else ByRid(r.rid)
  }

  lemma {:induction false} MemcmpIsAnOrder(a: Uuid, b: Uuid, c: Uuid, at: nat)
    requires at <= 16
    ensures Memcmp(a, b, at) == 0 <==> a[at..] == b[at..]
    ensures Memcmp(a, b, at) == -Memcmp(b, a, at)
    ensures Memcmp(a, b, at) < 0 && Memcmp(b, c, at) < 0 ==> Memcmp(a, c, at) < 0
    decreases 16 - at
  {
    if at < 16 {
      MemcmpIsAnOrder(a, b, c, at + 1);
      assert a[at..] == [a[at]] + a[at + 1..] && b[at..] == [b[at]] + b[at + 1..];
    }
  }

  lemma {:induction false} CompareZeroIsSameKey(a: Responder, b: Responder)
    ensures Compare(a, b) == 0 <==> KeyOf(a) == KeyOf(b)
  {
    MemcmpIsAnOrder(a.rid, b.rid, a.rid, 0);
    assert a.rid[0..] == a.rid && b.rid[0..] == b.rid;
  }

  lemma {:induction false} CompareIsAntisymmetric(a: Responder, b: Responder)
    ensures Compare(a, b) == -Compare(b, a)
  {
    MemcmpIsAnOrder(a.rid, b.rid, a.rid, 0);
    assert a.rid[0..] == a.rid && b.rid[0..] == b.rid;
  }

  lemma {:induction false} CompareIsTransitive(a: Responder, b: Responder, c: Responder)
    requires Compare(a, b) < 0 && Compare(b, c) < 0
    ensures Compare(a, c) < 0
  {
    MemcmpIsAnOrder(a.rid, b.rid, c.rid, 0);
    MemcmpIsAnOrder(b.rid, c.rid, a.rid, 0);
    assert a.rid[0..] == a.rid && b.rid[0..] == b.rid && c.rid[0..] == c.rid;
  }

  /** `Compare` is a total order on keys. */
  lemma {:induction false} CompareIsTotalOrder(a: Responder, b: Responder, c: Responder)
    ensures Compare(a, b) == 0 <==> KeyOf(a) == KeyOf(b)
    ensures Compare(a, b) < 0 <==> Compare(b, a) > 0
    ensures Compare(a, b) < 0 && Compare(b, c) < 0 ==> Compare(a, c) < 0
  {
    CompareZeroIsSameKey(a, b);
    CompareIsAntisymmetric(a, b);
    if Compare(a, b) < 0 && Compare(b, c) < 0 {
      CompareIsTransitive(a, b, c);
    }
  }

  /** Byte by byte, the first difference decides. */
  ghost predicate Below(a: Uuid, b: Uuid) {
    exists k :: 0 <= k < 16 && a[k] < b[k] && forall j :: 0 <= j < k ==> a[j] == b[j]
  }

  lemma {:induction false} MemcmpIsBelow(a: Uuid, b: Uuid, at: nat)
    requires at <= 16 && forall j :: 0 <= j < at ==> a[j] == b[j]
    ensures Memcmp(a, b, at) < 0 <==> Below(a, b)
    decreases 16 - at
  {
    if at < 16 && a[at] == b[at] {
      MemcmpIsBelow(a, b, at + 1);
    } else if at < 16 {
      forall k | 0 <= k < 16 && a[k] < b[k] && forall j :: 0 <= j < k ==> a[j] == b[j] ensures k == at {}
    }
  }

  /** Responders come in the order of their RIDs; those without one come first, by manufacturer and then by id. */
  lemma {:induction false} OrderIsByRidThenUid(a: Responder, b: Responder)
    ensures Compare(a, b) < 0 <==>
            Below(a.rid, b.rid)
            || (a.rid == b.rid == NULL_RID && (a.uid.manu < b.uid.manu || (a.uid.manu == b.uid.manu && a.uid.id < b.uid.id)))
  {
    MemcmpIsBelow(a.rid, b.rid, 0);
    MemcmpIsAnOrder(a.rid, b.rid, a.rid, 0);
    assert a.rid[0..] == a.rid && b.rid[0..] == b.rid;
  }

  /** Only the key matters to `Compare`. */
  lemma {:induction false} CompareUsesKeys(a: Responder, a': Responder, b: Responder)
    requires KeyOf(a) == KeyOf(a')
    ensures Compare(a, b) == Compare(a', b)
    ensures Compare(b, a) == Compare(b, a')
  {
    CompareIsAntisymmetric(a, b);
    CompareIsAntisymmetric(a', b);
  }

  ghost predicate Sorted(cells: seq<Responder>) {
    forall i, j {:trigger Compare(cells[i], cells[j])} ::
      0 <= i < j < |cells| ==> Compare(cells[i], cells[j]) < 0
  }

  ghost function Elements(cells: seq<Responder>): set<Responder> {
    set r | r in cells
  }

  ghost function Keys(cells: seq<Responder>): set<Key> {
    set r | r in cells :: KeyOf(r)
  }

  /** In an ordered sequence a key occurs once. */
  lemma {:induction false} SortedKeysAreUnique(cells: seq<Responder>, i: nat, j: nat)
    requires Sorted(cells)
    requires i < |cells| && j < |cells| && KeyOf(cells[i]) == KeyOf(cells[j])
    ensures i == j
  {
    CompareIsTotalOrder(cells[i], cells[j], cells[j]);
    CompareIsTotalOrder(cells[j], cells[i], cells[j]);
  }

  /** An ordered sequence is determined by the set of its cells. */
  lemma {:induction false} SortedIsCanonical(a: seq<Responder>, b: seq<Responder>)
    requires Sorted(a) && Sorted(b)
    requires Elements(a) == Elements(b)
    ensures a == b
  {
    assert (a == [] || a[0] in Elements(b)) && (b == [] || b[0] in Elements(a));
    if a != [] && b != [] {
      HeadIsLeast(a, b);
      var x := a[0];
      forall r ensures r in Elements(a[1..]) <==> r in Elements(b[1..]) {
        TailElements(a, r);
        TailElements(b, r);
      }
      SortedIsCanonical(a[1..], b[1..]);
      assert a == [x] + a[1..] && b == [x] + b[1..];
    }
  }

  lemma {:induction false} HeadIsLeast(a: seq<Responder>, b: seq<Responder>)
    requires Sorted(a) && Sorted(b) && a != [] && b != []
    requires Elements(a) == Elements(b)
    ensures a[0] == b[0]
  {
    assert a[0] in Elements(b) && b[0] in Elements(a);
    var i :| 0 <= i < |b| && b[i] == a[0];
    var j :| 0 <= j < |a| && a[j] == b[0];
    CompareIsTotalOrder(b[0], a[0], a[0]);
  }

  lemma {:induction false} TailElements(a: seq<Responder>, r: Responder)
    requires Sorted(a) && a != []
    ensures r in Elements(a[1..]) <==> r in Elements(a) && r != a[0]
  {
    if r in a && r != a[0] {
      var i :| 0 <= i < |a| && a[i] == r;
      assert a[1..][i - 1] == r;
    }
    if r in a[1..] {
      var i :| 0 <= i < |a[1..]| && a[1..][i] == r;
      CompareIsTotalOrder(a[0], a[i + 1], a[0]);
      assert Compare(a[0], a[i + 1]) < 0;
    }
  }

  // ----- lookup

  /** Comparison-guided search of `cells[lo..hi]`. */
  function Search(cells: seq<Responder>, key: Responder, lo: nat, hi: nat): (r: Option<nat>)
    requires lo <= hi <= |cells|
    ensures r.Some? ==> lo <= r.value < hi && Compare(key, cells[r.value]) == 0
    decreases hi - lo
  {
    if lo == hi then None
    else
      var mid := (lo + hi) / 2;
      var c := Compare(key, cells[mid]);
      if c == 0 then Some(mid)
      else if c < 0 then Search(cells, key, lo, mid)
      else Search(cells, key, mid + 1, hi)
  }

  function Find(cells: seq<Responder>, key: Responder): (r: Option<nat>)
    ensures r.Some? ==> r.value < |cells| && KeyOf(cells[r.value]) == KeyOf(key)
  {
    var r := Search(cells, key, 0, |cells|);
    assert r.Some? ==> KeyOf(cells[r.value]) == KeyOf(key) by {
      if r.Some? { CompareIsTotalOrder(key, cells[r.value], key); }
    }
    r
  }

  /** Comparing against any probed cell points towards the one cell with the key. */
  lemma {:induction false} ProbePointsTowardsKey(cells: seq<Responder>, key: Responder, probe: nat, i: nat)
    requires Sorted(cells) && probe < |cells| && i < |cells|
    requires KeyOf(cells[i]) == KeyOf(key)
    ensures Compare(key, cells[probe]) < 0 <==> i < probe
    ensures Compare(key, cells[probe]) > 0 <==> probe < i
  {
    CompareUsesKeys(key, cells[i], cells[probe]);
    CompareIsAntisymmetric(cells[i], cells[probe]);
    if i == probe { CompareZeroIsSameKey(key, cells[probe]); }
  }

  lemma {:induction false} SearchMissesNothing(cells: seq<Responder>, key: Responder, lo: nat, hi: nat, i: nat)
    requires Sorted(cells) && lo <= i < hi <= |cells|
    requires KeyOf(cells[i]) == KeyOf(key)
    ensures Search(cells, key, lo, hi) == Some(i)
    decreases hi - lo
  {
    var mid := (lo + hi) / 2;
    ProbePointsTowardsKey(cells, key, mid, i);
    if i < mid {
      SearchMissesNothing(cells, key, lo, mid, i);
    } else if mid < i {
      SearchMissesNothing(cells, key, mid + 1, hi, i);
    }
  }

  /** On an ordered sequence the guided search agrees with a linear scan. */
  lemma {:induction false} FindIsLinearScan(cells: seq<Responder>, key: Responder)
    requires Sorted(cells)
    ensures Find(cells, key).Some? <==> exists i :: 0 <= i < |cells| && KeyOf(cells[i]) == KeyOf(key)
    ensures Find(cells, key).Some? <==> KeyOf(key) in Keys(cells)
    ensures forall i :: 0 <= i < |cells| && KeyOf(cells[i]) == KeyOf(key) ==> Find(cells, key) == Some(i)
  {
    forall i | 0 <= i < |cells| && KeyOf(cells[i]) == KeyOf(key) ensures Find(cells, key) == Some(i) {
      SearchMissesNothing(cells, key, 0, |cells|, i);
    }
  }

  /** The key `rdmnet_find_responder_by_rid` builds; `unset` is whatever its UID field happens to hold. */
  function RidKey(rid: Uuid, unset: Uid): (r: Responder) {
    Responder(rid, unset, unset, 0)
  }

  function UidKey(uid: Uid): (r: Responder) {
    Responder(NULL_RID, uid, uid, 0)
  }

  function FindByRid(cells: seq<Responder>, rid: Uuid): (r: Option<nat>) {
    Find(cells, RidKey(rid, Uid(0, 0)))
  }

  function FindByUid(cells: seq<Responder>, uid: Uid): (r: Option<nat>) {
    Find(cells, UidKey(uid))
  }

  /** A search by RID never reads the unset UID exactly when the RID is not null. */
  lemma {:induction false} RidSearchIgnoresUnsetUid(rid: Uuid)
    ensures (forall cells, unset: Uid :: Sorted(cells) ==> Find(cells, RidKey(rid, unset)) == FindByRid(cells, rid))
       <==> rid != NULL_RID
  {
    if rid != NULL_RID {
      forall cells, unset: Uid | Sorted(cells)
        ensures Find(cells, RidKey(rid, unset)) == FindByRid(cells, rid)
      {
        FindIsLinearScan(cells, RidKey(rid, unset));
        FindIsLinearScan(cells, RidKey(rid, Uid(0, 0)));
      }
    } else {
      var cells := [UidKey(Uid(0, 7))];
      assert Sorted(cells);
      FindIsLinearScan(cells, RidKey(rid, Uid(0, 7)));
      FindIsLinearScan(cells, RidKey(rid, Uid(0, 0)));
      assert KeyOf(cells[0]) == KeyOf(RidKey(rid, Uid(0, 7)));
      assert Find(cells, RidKey(rid, Uid(0, 7))) != FindByRid(cells, rid);
    }
  }

  // ----- insertion and removal

  function InsertSorted(cells: seq<Responder>, r: Responder): (s: seq<Responder>)
    ensures |s| == |cells| + 1
    ensures forall x :: x in s <==> x in cells || x == r
  {
    if cells == [] || Compare(r, cells[0]) < 0 then [r] + cells
    else
      var s := [cells[0]] + InsertSorted(cells[1..], r);
      assert forall x :: x in cells <==> x == cells[0] || x in cells[1..];
      s
  }

  lemma {:induction false} InsertKeepsSorted(cells: seq<Responder>, r: Responder)
    requires Sorted(cells) && KeyOf(r) !in Keys(cells)
    ensures Sorted(InsertSorted(cells, r))
  {
    if cells == [] {
    } else if Compare(r, cells[0]) < 0 {
      var s := [r] + cells;
      forall i, j | 0 <= i < j < |s| ensures Compare(s[i], s[j]) < 0 {
        if i == 0 { CompareIsTotalOrder(r, cells[0], s[j]); }
      }
    } else {
      var tail := cells[1..];
      InsertKeepsSorted(tail, r);
      var s := [cells[0]] + InsertSorted(tail, r);
      assert KeyOf(cells[0]) in Keys(cells);
      CompareIsTotalOrder(r, cells[0], r);
      CompareIsTotalOrder(cells[0], r, r);
      forall i, j | 0 <= i < j < |s| ensures Compare(s[i], s[j]) < 0 {
        if i == 0 {
          assert s[j] in InsertSorted(tail, r);
          if s[j] != r {
            var k :| 0 <= k < |tail| && tail[k] == s[j];
            assert Compare(cells[0], cells[k + 1]) < 0;
          }
        }
      }
    }
  }

  function DropAt<T>(s: seq<T>, k: nat): (r: seq<T>)
    requires k < |s|
    ensures |r| == |s| - 1
  {
    s[..k] + s[k + 1..]
  }

  function RemoveKey(cells: seq<Responder>, key: Responder): (s: seq<Responder>) {
    var at := Find(cells, key);
    if at.Some? then DropAt(cells, at.value) else cells
  }

  lemma {:induction false} DropAtIndices<T>(s: seq<T>, k: nat, x: T)
    requires k < |s|
    ensures x in DropAt(s, k) <==> exists i :: 0 <= i < |s| && i != k && s[i] == x
  {
    var d := DropAt(s, k);
    if x in d {
      var i :| 0 <= i < |d| && d[i] == x;
      assert s[if i < k then i else i + 1] == x;
    }
    if i :| 0 <= i < |s| && i != k && s[i] == x {
      assert d[if i < k then i else i - 1] == x;
    }
  }

  lemma {:induction false} DropAtMembers(cells: seq<Responder>, k: nat, r: Responder)
    requires Sorted(cells) && k < |cells|
    ensures r in DropAt(cells, k) <==> r in cells && KeyOf(r) != KeyOf(cells[k])
  {
    DropAtIndices(cells, k, r);
    forall i | 0 <= i < |cells| && KeyOf(cells[i]) == KeyOf(cells[k]) ensures i == k {
      SortedKeysAreUnique(cells, i, k);
    }
  }

  /** Removing a key from an ordered sequence removes exactly the cells with that key. */
  lemma {:induction false} RemoveKeyRemovesKey(cells: seq<Responder>, key: Responder)
    requires Sorted(cells)
    ensures Sorted(RemoveKey(cells, key))
    ensures forall r :: r in RemoveKey(cells, key) <==> r in cells && KeyOf(r) != KeyOf(key)
  {
    FindIsLinearScan(cells, key);
    var at := Find(cells, key);
    if at.Some? {
      forall r ensures r in RemoveKey(cells, key) <==> r in cells && KeyOf(r) != KeyOf(key) {
        DropAtMembers(cells, at.value, r);
      }
    }
  }
}
