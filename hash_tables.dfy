/** SET5/A2.cpp: an open-addressing hash table of int keys over a vector of
    cells, with quadratic (h + i + i^2) and cubic (h + i + i^2 + i^3)
    probing, a collision counter and a count of clusters of occupied cells. */
module HashTables {

  /** 2^64: size_t arithmetic wraps modulo this. */
  const SizeMax: int := 0x1_0000_0000_0000_0000

  /** The keys are C++ ints. */
  newtype Int32 = x: int | -0x8000_0000 <= x < 0x8000_0000

  /** struct Value: a key and whether the cell holds one. An empty cell is
      Value(), with key 0. */
  datatype Cell = Cell(key: Int32, hasValue: bool)

  const Empty: Cell := Cell(0, false)

  datatype Probing = Quadratic | Cubic

  /** The offset of probe i: i + i*i, plus i*i*i for cubic probing. */
  function Offset(p: Probing, i: nat): nat {
    match p
    case Quadratic => i + i * i
    case Cubic => i + i * i + i * i * i
  }

  /** get_hash(key) = key % M, where the int key is first converted to
      size_t (a negative key becomes key + 2^64). */
  function Hash(key: Int32, m: nat): (h: nat)
    requires m > 0
    ensures h < m
    ensures 0 <= key ==> h == key as int % m
  {
    (if key < 0 then key as int + SizeMax else key as int) % m
  }

  /** The cell probe i of key visits: (hash + offset) computed in size_t,
      then reduced modulo M. */
  function ProbeAt(key: Int32, p: Probing, i: nat, m: nat): (idx: nat)
    requires m > 0
    ensures idx < m
  {
    (Hash(key, m) + Offset(p, i)) % SizeMax % m
  }

  /** A probe of key stops at cell idx when the cell is empty or holds key. */
  predicate StopsAt(t: seq<Cell>, key: Int32, idx: nat)
    requires idx < |t|
  {
    !t[idx].hasValue || t[idx].key == key
  }

  /** The first probe number at or after i whose cell stops the probe
      sequence of key, or |t| when none of the probes below |t| does. */
  function FirstStop(t: seq<Cell>, key: Int32, p: Probing, i: nat): (r: nat)
    requires i <= |t|
    ensures i <= r <= |t|
    ensures forall j :: i <= j < r ==> !StopsAt(t, key, ProbeAt(key, p, j, |t|))
    ensures r < |t| ==> StopsAt(t, key, ProbeAt(key, p, r, |t|))
    decreases |t| - i
  {
    if i == |t| then |t|
    else if StopsAt(t, key, ProbeAt(key, p, i, |t|)) then i
    else FirstStop(t, key, p, i + 1)
  }

  /** The table after inserting key: unchanged when the probes all hit other
      keys or find key itself, otherwise key written to the first empty
      probed cell. */
  function Inserted(t: seq<Cell>, key: Int32, p: Probing): (t': seq<Cell>)
    ensures |t'| == |t|
  {
    var r := FirstStop(t, key, p, 0);
    if r == |t| then t
    else
      var idx := ProbeAt(key, p, r, |t|);
      if t[idx].hasValue then t else t[idx := Cell(key, true)]
  }

  /** The keys the table holds. */
  function Keys(t: seq<Cell>): set<Int32> {
    set c | 0 <= c < |t| && t[c].hasValue :: t[c].key
  }

  /** Every stored key sits where its own probe sequence first stops, so a
      lookup by probing finds it. Tables built by the inserts keep this. */
  ghost predicate Placed(t: seq<Cell>, p: Probing) {
    forall c :: 0 <= c < |t| && t[c].hasValue ==>
      FirstStop(t, t[c].key, p, 0) < |t| && ProbeAt(t[c].key, p, FirstStop(t, t[c].key, p, 0), |t|) == c
  }

  /** No key is stored in two cells. */
  ghost predicate NoDuplicates(t: seq<Cell>) {
    forall c, d :: 0 <= c < d < |t| && t[c].hasValue && t[d].hasValue ==> t[c].key != t[d].key
  }

  /** A probe sequence that passes [i, r) and stops at r (or runs out at
      r == |t|) has its first stop at r. */
  lemma FirstStopIs(t: seq<Cell>, key: Int32, p: Probing, i: nat, r: nat)
    requires i <= r <= |t|
    requires forall j :: i <= j < r ==> !StopsAt(t, key, ProbeAt(key, p, j, |t|))
    requires r < |t| ==> StopsAt(t, key, ProbeAt(key, p, r, |t|))
    ensures FirstStop(t, key, p, i) == r
  {
  }

  /** A table in which every key is placed holds no duplicates. */
  lemma PlacedNoDuplicates(t: seq<Cell>, p: Probing)
    requires Placed(t, p)
    ensures NoDuplicates(t)
  {
  }

  /** Writing key into the empty cell where its probes first stop keeps
      another stored key placed: none of that key's probes up to its own
      cell saw the empty cell. */
  lemma OtherStaysPlaced(t: seq<Cell>, key: Int32, p: Probing, idx: nat, c: nat)
    requires idx < |t| && !t[idx].hasValue
    requires Placed(t, p)
    requires c < |t| && c != idx && t[c].hasValue
    ensures var t' := t[idx := Cell(key, true)];
            FirstStop(t', t[c].key, p, 0) < |t'| && ProbeAt(t[c].key, p, FirstStop(t', t[c].key, p, 0), |t'|) == c
  {
    var t' := t[idx := Cell(key, true)];
    var k := t[c].key;
    var r := FirstStop(t, k, p, 0);
    forall j | 0 <= j < r
      ensures !StopsAt(t', k, ProbeAt(k, p, j, |t|))
    {
      assert !StopsAt(t, k, ProbeAt(k, p, j, |t|));
    }
    FirstStopIs(t', k, p, 0, r);
  }

  /** The newly written key is placed too. */
  lemma NewKeyPlaced(t: seq<Cell>, key: Int32, p: Probing)
    requires FirstStop(t, key, p, 0) < |t|
    requires !t[ProbeAt(key, p, FirstStop(t, key, p, 0), |t|)].hasValue
    ensures var r := FirstStop(t, key, p, 0);
            var idx := ProbeAt(key, p, r, |t|);
            var t' := t[idx := Cell(key, true)];
            FirstStop(t', key, p, 0) == r
  {
    var r := FirstStop(t, key, p, 0);
    var idx := ProbeAt(key, p, r, |t|);
    var t' := t[idx := Cell(key, true)];
    forall j | 0 <= j < r
      ensures !StopsAt(t', key, ProbeAt(key, p, j, |t|))
    {
      assert !StopsAt(t, key, ProbeAt(key, p, j, |t|));
    }
    FirstStopIs(t', key, p, 0, r);
  }

  /** Inserting keeps every key placed, so with one probing method per table
      no key ever ends up in two cells. */
  lemma InsertKeepsPlaced(t: seq<Cell>, key: Int32, p: Probing)
    requires Placed(t, p)
    ensures Placed(Inserted(t, key, p), p)
    ensures NoDuplicates(Inserted(t, key, p))
  {
    var r := FirstStop(t, key, p, 0);
    if r < |t| && !t[ProbeAt(key, p, r, |t|)].hasValue {
      var idx := ProbeAt(key, p, r, |t|);
      var t' := t[idx := Cell(key, true)];
      forall c | 0 <= c < |t'| && t'[c].hasValue
        ensures FirstStop(t', t'[c].key, p, 0) < |t'| && ProbeAt(t'[c].key, p, FirstStop(t', t'[c].key, p, 0), |t'|) == c
      {
        if c == idx {
          NewKeyPlaced(t, key, p);
        } else {
          OtherStaysPlaced(t, key, p, idx, c);
        }
      }
      assert Inserted(t, key, p) == t';
    }
    PlacedNoDuplicates(Inserted(t, key, p), p);
  }

  /** Inserting a key the table already holds changes nothing, and is
      reported as a success. */
  lemma InsertPresentUnchanged(t: seq<Cell>, key: Int32, p: Probing)
    requires Placed(t, p) && key in Keys(t)
    ensures FirstStop(t, key, p, 0) < |t|
    ensures Inserted(t, key, p) == t
  {
    var c :| 0 <= c < |t| && t[c].hasValue && t[c].key == key;
    assert ProbeAt(key, p, FirstStop(t, key, p, 0), |t|) == c;
  }

  /** An insert adds key to the stored keys exactly when its probes stop
      somewhere, and adds nothing else. */
  lemma InsertedKeys(t: seq<Cell>, key: Int32, p: Probing)
    requires Placed(t, p)
    ensures FirstStop(t, key, p, 0) < |t| ==> Keys(Inserted(t, key, p)) == Keys(t) + {key}
    ensures FirstStop(t, key, p, 0) == |t| ==> Keys(Inserted(t, key, p)) == Keys(t) && key !in Keys(t)
  {
    var r := FirstStop(t, key, p, 0);
    if key in Keys(t) {
      InsertPresentUnchanged(t, key, p);
    } else if r < |t| {
      var idx := ProbeAt(key, p, r, |t|);
      assert !t[idx].hasValue;
      KeysAfterWrite(t, key, idx);
    }
  }

  /** Writing key into an empty cell adds key to the stored keys and
      nothing else. */
  lemma KeysAfterWrite(t: seq<Cell>, key: Int32, idx: nat)
    requires idx < |t| && !t[idx].hasValue
    ensures Keys(t[idx := Cell(key, true)]) == Keys(t) + {key}
  {
    var t' := t[idx := Cell(key, true)];
    assert t'[idx].hasValue && t'[idx].key == key;
    forall x | x in Keys(t')
      ensures x in Keys(t) + {key}
    {
      var c :| 0 <= c < |t'| && t'[c].hasValue && t'[c].key == x;
      if c != idx {
        assert t[c] == t'[c];
      }
    }
    forall x | x in Keys(t)
      ensures x in Keys(t')
    {
      var c :| 0 <= c < |t| && t[c].hasValue && t[c].key == x;
      assert t'[c] == t[c];
    }
  }

  /** Inserting the same key twice is the same as inserting it once. */
  lemma InsertIdempotent(t: seq<Cell>, key: Int32, p: Probing)
    requires Placed(t, p)
    ensures Inserted(Inserted(t, key, p), key, p) == Inserted(t, key, p)
  {
    var t' := Inserted(t, key, p);
    InsertKeepsPlaced(t, key, p);
    InsertedKeys(t, key, p);
    if FirstStop(t, key, p, 0) < |t| {
      InsertPresentUnchanged(t', key, p);
    }
  }

  /** The number of occupied cells. */
  function Occupied(t: seq<Cell>): (n: nat)
    ensures n <= |t|
  {
    if |t| == 0 then 0
    else Occupied(t[..|t| - 1]) + (if t[|t| - 1].hasValue then 1 else 0)
  }

  /** The number of maximal runs of occupied cells, in index order and
      without wrapping around: the occupied cells whose left neighbour is
      empty or missing. */
  function Clusters(t: seq<Cell>): nat {
    if |t| == 0 then 0
    else Clusters(t[..|t| - 1]) + (if t[|t| - 1].hasValue && (|t| == 1 || !t[|t| - 2].hasValue) then 1 else 0)
  }

  /** There are no more clusters than occupied cells, and there are none
      exactly when no cell is occupied. */
  lemma {:induction false} ClustersBounds(t: seq<Cell>)
    ensures Clusters(t) <= Occupied(t)
    ensures Clusters(t) == 0 <==> Occupied(t) == 0
  {
    if |t| > 0 {
      var u := t[..|t| - 1];
      ClustersBounds(u);
      if |t| > 1 && t[|t| - 1].hasValue && t[|t| - 2].hasValue {
        assert u[|u| - 1] == t[|t| - 2];
        assert Occupied(u) > 0 by {
          OccupiedLast(u);
        }
      }
    }
  }

  /** A sequence whose last cell is occupied has an occupied cell. */
  lemma OccupiedLast(t: seq<Cell>)
    requires |t| > 0 && t[|t| - 1].hasValue
    ensures Occupied(t) > 0
  {
  }

  /** A table of empty cells holds no key and no cluster, and every key in
      it is (vacuously) placed. */
  lemma EmptyTable(m: nat, p: Probing)
    ensures Keys(seq(m, _ => Empty)) == {}
    ensures Placed(seq(m, _ => Empty), p)
    ensures Clusters(seq(m, _ => Empty)) == 0
  {
    var t := seq(m, _ => Empty);
    assert Occupied(t) == 0 by {
      EmptyOccupied(t);
    }
    ClustersBounds(t);
  }

  /** A sequence of empty cells has no occupied cell. */
  lemma {:induction false} EmptyOccupied(t: seq<Cell>)
    requires forall c :: 0 <= c < |t| ==> !t[c].hasValue
    ensures Occupied(t) == 0
  {
    if |t| > 0 {
      EmptyOccupied(t[..|t| - 1]);
    }
  }

  class HashTable {
    const M: nat
    const table: array<Cell>
    var collisions: int

    ghost predicate Valid() {
      table.Length == M
    }

    /** HashTable(size): size empty cells and no collisions. */
    constructor (size: nat)
      ensures Valid() && fresh(table)
      ensures table[..] == seq(size, _ => Empty)
      ensures collisions == 0
    {
      M := size;
      table := new Cell[size](_ => Empty);
      collisions := 0;
    }

    /** The probe loop shared by quadratic_insert and cubic_insert: probes
      i = 0 .. M - 1, returns true at the first cell holding key or the first
      empty cell (writing key there), and counts one collision for every
      probed cell holding another key. */
    method ProbeInsert(key: Int32, p: Probing) returns (ok: bool)
      requires Valid() && M > 0
      modifies this, table
      ensures Valid()
      ensures ok <==> FirstStop(old(table[..]), key, p, 0) < M
      ensures collisions == old(collisions) + FirstStop(old(table[..]), key, p, 0)
      ensures table[..] == Inserted(old(table[..]), key, p)
    {
      var h := Hash(key, M);
      ghost var t := table[..];
      var i := 0;
      while i < M
        invariant 0 <= i <= FirstStop(t, key, p, 0)
        invariant FirstStop(t, key, p, i) == FirstStop(t, key, p, 0)
        invariant table[..] == t
        invariant collisions == old(collisions) + i
      {
        var index := (h + Offset(p, i)) % SizeMax % M;
        assert index == ProbeAt(key, p, i, M);
        if table[index].hasValue && table[index].key == key {
          return true;
        }
        if !table[index].hasValue {
          table[index] := Cell(key, true);
          return true;
        }
        collisions := collisions + 1;
        i := i + 1;
      }
      return false;
    }

    /** quadratic_insert(key). */
    method QuadraticInsert(key: Int32) returns (ok: bool)
      requires Valid() && M > 0
      modifies this, table
      ensures Valid()
      ensures ok <==> FirstStop(old(table[..]), key, Quadratic, 0) < M
      ensures collisions == old(collisions) + FirstStop(old(table[..]), key, Quadratic, 0)
      ensures table[..] == Inserted(old(table[..]), key, Quadratic)
    {
      ok := ProbeInsert(key, Quadratic);
    }

    /** cubic_insert(key). */
    method CubicInsert(key: Int32) returns (ok: bool)
      requires Valid() && M > 0
      modifies this, table
      ensures Valid()
      ensures ok <==> FirstStop(old(table[..]), key, Cubic, 0) < M
      ensures collisions == old(collisions) + FirstStop(old(table[..]), key, Cubic, 0)
      ensures table[..] == Inserted(old(table[..]), key, Cubic)
    {
      ok := ProbeInsert(key, Cubic);
    }

    /** count_clusters(): one pass with an in_cluster flag. */
    method CountClusters() returns (clusters: nat)
      ensures clusters == Clusters(table[..])
    {
      clusters := 0;
      var inCluster := false;
      for i := 0 to table.Length
        invariant clusters == Clusters(table[..i])
        invariant inCluster <==> i > 0 && table[i - 1].hasValue
      {
        assert table[..i + 1][..i] == table[..i];
        if table[i].hasValue {
          if !inCluster {
            clusters := clusters + 1;
            inCluster := true;
          }
        } else {
          inCluster := false;
        }
      }
      assert table[..table.Length] == table[..];
    }

    /** get_collisions(). */
    function GetCollisions(): (c: int)
      reads this
      ensures c == collisions
    {
      collisions
    }
  }
}
