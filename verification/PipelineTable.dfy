/**
 The fixed 256-slot open-addressing table with linear probing that a context keeps its
 compute pipelines in, for an arbitrary home-slot function.
 */
module PipelineTable {
  import opened Wrappers

  const CAPACITY: nat := 256

  datatype Layout = GemmLayout | ConvLayout

  datatype Entry = Entry(key: nat, pipeline: nat, layout: Layout, dataType: nat,
                         transA: nat, transB: nat, strided: nat, tier: nat, valid: bool)

  type Table = t: seq<Entry> | |t| == CAPACITY
    witness seq(CAPACITY, _ => Entry(0, 0, GemmLayout, 0, 0, 0, 0, 0, false))

  type HomeSlot = nat -> nat

  /** The i-th slot probed from home slot h. */
  function Slot(h: nat, i: nat): (s: nat)
    ensures s < CAPACITY
  {
    (h + i) % CAPACITY
  }

  /** Probing is linear over 256 slots: one slot on, and from the last to the first. */
  lemma ProbeOrder(h: nat, i: nat)
    requires h < 256
    ensures CAPACITY == 256 && Slot(h, 0) == h
    ensures Slot(h, i + 1) == if Slot(h, i) == 255 then 0 else Slot(h, i) + 1
  {
  }

  /** How many probes from home slot h reach slot p. */
  function Distance(h: nat, p: nat): (d: nat)
    requires h < CAPACITY && p < CAPACITY
    ensures d < CAPACITY && Slot(h, d) == p
    ensures forall i: nat :: i < CAPACITY && Slot(h, i) == p ==> i == d
  {
    if p >= h then p - h else p + CAPACITY - h
  }

  /** Lookup loop: stops at the first hole, at the key, or after CAPACITY probes. */
  function FindIndex(t: Table, h: nat, key: nat, i: nat): Option<nat>
    requires i <= CAPACITY
    decreases CAPACITY - i
  {
    if i == CAPACITY || !t[Slot(h, i)].valid then None
    else if t[Slot(h, i)].key == key then Some(i)
    else FindIndex(t, h, key, i + 1)
  }

  /** Insertion loop: the first hole, if there is one. */
  function HoleIndex(t: Table, h: nat, i: nat): Option<nat>
    requires i <= CAPACITY
    decreases CAPACITY - i
  {
    if i == CAPACITY then None
    else if !t[Slot(h, i)].valid then Some(i)
    else HoleIndex(t, h, i + 1)
  }

  function Lookup(t: Table, h: nat, key: nat): Option<nat> {
    match FindIndex(t, h, key, 0)
    case None => None
    case Some(i) => Some(t[Slot(h, i)].pipeline)
  }

  /** A full table is left as it is. */
  function Insert(t: Table, h: nat, e: Entry): Table {
    match HoleIndex(t, h, 0)
    case None => t
    case Some(i) => t[Slot(h, i) := e]
  }

  // ---------------------------------------------------------------- invariant

  ghost predicate Homes(home: HomeSlot) {
    forall k: nat :: home(k) < CAPACITY
  }

  ghost predicate UniqueKeys(t: Table) {
    forall p: nat, q: nat :: p < CAPACITY && q < CAPACITY && t[p].valid && t[q].valid && t[p].key == t[q].key ==> p == q
  }

  /** Every valid entry is reached from its own home slot through valid slots only. */
  ghost predicate Reachable(t: Table, home: HomeSlot)
    requires Homes(home)
  {
    forall p: nat, d: nat :: p < CAPACITY && t[p].valid && d < Distance(home(t[p].key), p) ==>
      t[Slot(home(t[p].key), d)].valid
  }

  ghost predicate WellFormed(t: Table, home: HomeSlot) {
    Homes(home) && UniqueKeys(t) && Reachable(t, home)
  }

  ghost predicate HasKey(t: Table, key: nat) {
    exists p: nat :: p < CAPACITY && t[p].valid && t[p].key == key
  }

  ghost function ValidSlots(t: Table): set<nat> {
    set p: nat | p < CAPACITY && t[p].valid
  }

  ghost function Keys(t: Table): (ks: set<nat>)
    ensures forall k: nat :: k in ks <==> HasKey(t, k)
  {
    set p: nat | p in ValidSlots(t) :: t[p].key
  }

  ghost function SlotOf(t: Table, key: nat): (p: nat)
    requires HasKey(t, key)
    ensures p < CAPACITY && t[p].valid && t[p].key == key
  {
    var p: nat :| p < CAPACITY && t[p].valid && t[p].key == key; p
  }

  /** The finite map the table stands for. */
  ghost function Contents(t: Table): (m: map<nat, nat>) {
    map k: nat | k in Keys(t) :: t[SlotOf(t, k)].pipeline
  }

  // ---------------------------------------------------------------- lookup

  lemma {:induction false} FindSound(t: Table, h: nat, key: nat, i: nat)
    requires i <= CAPACITY
    ensures var f := FindIndex(t, h, key, i);
            f.Some? ==> i <= f.value < CAPACITY && t[Slot(h, f.value)].valid && t[Slot(h, f.value)].key == key
    decreases CAPACITY - i
  {
    if i < CAPACITY && t[Slot(h, i)].valid && t[Slot(h, i)].key != key {
      FindSound(t, h, key, i + 1);
    }
  }

  lemma {:induction false} FindComplete(t: Table, home: HomeSlot, p: nat, i: nat)
    requires WellFormed(t, home) && p < CAPACITY && t[p].valid
    requires i <= Distance(home(t[p].key), p)
    ensures FindIndex(t, home(t[p].key), t[p].key, i) == Some(Distance(home(t[p].key), p))
    decreases CAPACITY - i
  {
    var h, d := home(t[p].key), Distance(home(t[p].key), p);
    if i < d {
      assert t[Slot(h, i)].valid;
      assert Slot(h, i) != p;
      FindComplete(t, home, p, i + 1);
    }
  }

  /** A lookup that probes from the key's home slot is a lookup in the finite map. */
  lemma LookupRefinesMap(t: Table, home: HomeSlot, key: nat)
    requires WellFormed(t, home)
    ensures Lookup(t, home(key), key) == if key in Contents(t) then Some(Contents(t)[key]) else None
  {
    FindSound(t, home(key), key, 0);
    if HasKey(t, key) {
      var p: nat :| p < CAPACITY && t[p].valid && t[p].key == key;
      FindComplete(t, home, p, 0);
    }
  }

  // ---------------------------------------------------------------- insertion

  lemma {:induction false} HoleSound(t: Table, h: nat, i: nat)
    requires i <= CAPACITY
    requires forall d: nat :: d < i ==> t[Slot(h, d)].valid
    ensures var f := HoleIndex(t, h, i);
            f.Some? ==> && i <= f.value < CAPACITY && !t[Slot(h, f.value)].valid
                        && forall d: nat :: d < f.value ==> t[Slot(h, d)].valid
    decreases CAPACITY - i
  {
    if i < CAPACITY && t[Slot(h, i)].valid {
      HoleSound(t, h, i + 1);
    }
  }

  lemma {:induction false} HoleComplete(t: Table, h: nat, p: nat, i: nat)
    requires h < CAPACITY && p < CAPACITY && !t[p].valid && i <= Distance(h, p)
    ensures HoleIndex(t, h, i).Some?
    decreases CAPACITY - i
  {
    if t[Slot(h, i)].valid {
      HoleComplete(t, h, p, i + 1);
    }
  }

  ghost predicate HasHole(t: Table) {
    exists p: nat :: p < CAPACITY && !t[p].valid
  }

  /** Inserting a key that is not present fills one hole and changes nothing else. */
  lemma InsertWhere(t: Table, h: nat, e: Entry) returns (s: nat)
    requires h < CAPACITY && HasHole(t)
    ensures s < CAPACITY && !t[s].valid && Insert(t, h, e) == t[s := e]
    ensures forall d: nat :: d < Distance(h, s) ==> t[Slot(h, d)].valid
  {
    var p: nat :| p < CAPACITY && !t[p].valid;
    HoleComplete(t, h, p, 0);
    HoleSound(t, h, 0);
    var i := HoleIndex(t, h, 0).value;
    s := Slot(h, i);
    assert i == Distance(h, s);
  }

  lemma InsertRefinesMap(t: Table, home: HomeSlot, e: Entry)
    requires WellFormed(t, home) && HasHole(t)
    requires e.valid && !HasKey(t, e.key)
    ensures var t' := Insert(t, home(e.key), e);
            WellFormed(t', home) && Contents(t') == Contents(t)[e.key := e.pipeline]
  {
    var s := InsertWhere(t, home(e.key), e);
    var t' := t[s := e];
    assert UniqueKeys(t') by {
      forall p: nat | p < CAPACITY && t'[p].valid && t'[p].key == e.key ensures p == s {
        if p != s { assert HasKey(t, e.key); }
      }
    }
    assert Reachable(t', home);
    FilledContents(t, s, e);
  }

  lemma FilledContents(t: Table, s: nat, e: Entry)
    requires UniqueKeys(t) && s < CAPACITY && !t[s].valid
    requires e.valid && !HasKey(t, e.key)
    ensures Contents(t[s := e]) == Contents(t)[e.key := e.pipeline]
  {
    var t' := t[s := e];
    forall k: nat ensures HasKey(t', k) <==> HasKey(t, k) || k == e.key {
      if HasKey(t, k) { assert t'[SlotOf(t, k)] == t[SlotOf(t, k)]; }
      if k == e.key { assert t'[s].key == k; }
    }
    forall k: nat | HasKey(t', k) ensures Contents(t')[k] == Contents(t)[e.key := e.pipeline][k] {
      var p := SlotOf(t', k);
      if p != s {
        assert t'[p] == t[p];
        assert p == SlotOf(t, k);
      }
    }
  }

  // ---------------------------------------------------------------- counting

  lemma {:induction false} AllSlots(n: nat, s: set<nat>)
    requires forall p: nat :: p < n ==> p in s
    ensures |s| >= n
  {
    if n > 0 {
      AllSlots(n - 1, s - {n - 1});
    }
  }

  lemma {:induction false} SmallNumbers(n: nat, s: set<nat>)
    requires forall p :: p in s ==> p < n
    ensures |s| <= n
  {
    if n > 0 {
      SmallNumbers(n - 1, s - {n - 1});
    } else {
      assert s == {};
    }
  }

  /** A numbering of keys that tells the keys in s apart. */
  ghost predicate Ranks(t: Table, s: set<nat>, rank: nat -> nat, n: nat) {
    && s <= ValidSlots(t)
    && (forall p :: p in s ==> rank(t[p].key) < n)
    && (forall p, q :: p in s && q in s && rank(t[p].key) == rank(t[q].key) ==> t[p].key == t[q].key)
  }

  ghost function Image(s: set<nat>, f: nat -> nat): set<nat> {
    set p: nat | p in s :: f(p)
  }

  lemma {:induction false} InjectiveImage(s: set<nat>, f: nat -> nat)
    requires forall p, q :: p in s && q in s && f(p) == f(q) ==> p == q
    ensures |Image(s, f)| == |s|
  {
    if s != {} {
      var q :| q in s;
      var rest := s - {q};
      InjectiveImage(rest, f);
      assert Image(s, f) == Image(rest, f) + {f(q)};
    }
  }

  /** A table whose keys can be numbered below n has at most n entries. */
  lemma RankedTable(t: Table, rank: nat -> nat, n: nat)
    requires UniqueKeys(t) && Ranks(t, ValidSlots(t), rank, n)
    ensures |ValidSlots(t)| <= n
    ensures n < CAPACITY ==> HasHole(t)
  {
    var s := ValidSlots(t);
    var f := (p: nat) => if p < CAPACITY then rank(t[p].key) else 0;
    InjectiveImage(s, f);
    SmallNumbers(n, Image(s, f));
    if !HasHole(t) {
      AllSlots(CAPACITY, s);
    }
  }

  // ---------------------------------------------------------------- the handles in the table

  /** How many of the first n slots hold handle h. */
  ghost function LiveBelow(t: Table, h: nat, n: nat): nat
    requires n <= CAPACITY
  {
    if n == 0 then 0
    else LiveBelow(t, h, n - 1) + if t[n - 1].valid && t[n - 1].pipeline == h then 1 else 0
  }

  ghost function Live(t: Table, h: nat): nat {
    LiveBelow(t, h, CAPACITY)
  }

  lemma {:induction false} LiveUpdate(t: Table, s: nat, e: Entry, h: nat, n: nat)
    requires s < CAPACITY && !t[s].valid && e.valid && n <= CAPACITY
    ensures LiveBelow(t[s := e], h, n) == LiveBelow(t, h, n) + if s < n && e.pipeline == h then 1 else 0
  {
    if n > 0 {
      LiveUpdate(t, s, e, h, n - 1);
    }
  }

  lemma {:induction false} NothingLive(t: Table, h: nat, n: nat)
    requires n <= CAPACITY && forall p: nat :: p < n ==> !t[p].valid
    ensures LiveBelow(t, h, n) == 0
  {
    if n > 0 {
      NothingLive(t, h, n - 1);
    }
  }
}
