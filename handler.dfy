/**
 * The description pool (`StatusHandler<std::string>`): a table of
 * reference-counted text slots plus a LIFO stack of free slot indices.
 *
 * The first half of the module gives the pool's abstract state as a value
 * (`PoolState`) and each operation as a function on it; the lemmas about
 * those functions carry the pool's guarantees. The class `StatusHandler`
 * at the end is the mutable object itself, each of its methods proved to
 * perform exactly the corresponding function.
 */
module Handler {

  /** The 8-bit reference counter of a slot. */
  newtype u8 = x: int | 0 <= x < 256

  /** `++refCounter` on an 8-bit counter: wraps from 255 to 0. */
  function Inc8(c: u8): (r: u8)
    ensures c < 255 ==> r as int == c as int + 1
    ensures c == 255 ==> r == 0
  {
    ((c as int + 1) % 256) as u8
  }

  /** `--refCounter` on an 8-bit counter: wraps from 0 to 255. */
  function Dec8(c: u8): (r: u8)
    ensures c > 0 ==> r as int == c as int - 1
    ensures c == 0 ==> r == 255
  {
    ((c as int + 255) % 256) as u8
  }

  /** One table entry: the stored text and how many holders share it. */
  datatype Element = Element(data: string, refCounter: u8)

  /** A default-constructed entry: empty text, no reference. */
  const EmptySlot: Element := Element("", 0)

  /**
   * The pool's state: the slot table and the free-index stack, whose top
   * is its LAST element.
   */
  datatype PoolState = PoolState(elements: seq<Element>, free: seq<nat>) {

    /**
     * The pool invariant: the free stack holds valid, pairwise distinct
     * indices; an index is on it exactly when its count is 0; and a free
     * slot holds empty text.
     */
    predicate Inv() {
      && (forall i :: 0 <= i < |free| ==> free[i] < |elements|)
      && (forall i, j :: 0 <= i < j < |free| ==> free[i] != free[j])
      && (forall k :: 0 <= k < |elements| ==> (elements[k].refCounter == 0 <==> k in free))
      && (forall k :: 0 <= k < |elements| && elements[k].refCounter == 0 ==> elements[k].data == "")
    }

    /** Slot `k` exists and is held by at least one reference. */
    predicate Referenced(k: nat) {
      k < |elements| && elements[k].refCounter > 0
    }
  }

  /** The pool built by the constructor with `initSize` slots. */
  function Initial(n: nat): (st: PoolState)
    ensures |st.elements| == n && |st.free| == n
    ensures forall k :: 0 <= k < n ==> st.elements[k] == EmptySlot
    ensures forall k :: 0 <= k < n ==> st.free[k] == k
  {
    PoolState(seq(n, _ => EmptySlot), seq(n, i requires 0 <= i => i as nat))
  }

  /** The index on top of the free stack, the next one handed out. */
  function Top(st: PoolState): nat
    requires st.free != []
  {
    st.free[|st.free| - 1]
  }

  /** `incrementRef(k)`: one more reference to slot `k` (8-bit wrap). */
  function Increment(st: PoolState, k: nat): (r: PoolState)
    requires k < |st.elements|
    ensures r.free == st.free && |r.elements| == |st.elements|
    ensures r.elements[k].data == st.elements[k].data
    ensures r.elements[k].refCounter == Inc8(st.elements[k].refCounter)
    ensures forall j :: 0 <= j < |st.elements| && j != k ==> r.elements[j] == st.elements[j]
    ensures st.Inv() && 0 < st.elements[k].refCounter < 255 ==> r.Inv()
  {
    var e := st.elements[k];
    st.(elements := st.elements[k := e.(refCounter := Inc8(e.refCounter))])
  }

  /**
   * `getAvailableIndex()`: pop the top free index and give its slot one
   * reference.
   */
  function Allocate(st: PoolState): (r: PoolState)
    requires st.Inv() && st.free != []
    ensures Top(st) < |st.elements| && st.elements[Top(st)] == EmptySlot
    ensures r.free == st.free[..|st.free| - 1] && Top(st) !in r.free
    ensures r.elements == st.elements[Top(st) := Element("", 1)]
    ensures r.Inv()
  {
    var k := Top(st);
    assert k in st.free;
    Increment(st.(free := st.free[..|st.free| - 1]), k)
  }

  /**
   * `decrementRef(k)`: drop one reference to slot `k` (8-bit wrap). When
   * the count reaches 0 the index goes back on the free stack and the text
   * is cleared.
   */
  function Decrement(st: PoolState, k: nat): (r: PoolState)
    requires k < |st.elements|
    ensures |r.elements| == |st.elements|
    ensures r.elements[k].refCounter == Dec8(st.elements[k].refCounter)
    ensures forall j :: 0 <= j < |st.elements| && j != k ==> r.elements[j] == st.elements[j]
    ensures st.elements[k].refCounter == 1 ==> r.free == st.free + [k] && r.elements[k].data == ""
    ensures st.elements[k].refCounter != 1 ==> r.free == st.free && r.elements[k].data == st.elements[k].data
    ensures st.Inv() && st.elements[k].refCounter > 0 ==> r.Inv()
  {
    var e := st.elements[k];
    var c := Dec8(e.refCounter);
    if c == 0 then
      PoolState(st.elements[k := Element("", c)], st.free + [k])
    else
      st.(elements := st.elements[k := e.(refCounter := c)])
  }

  /** `getData(k)` read access: the text of a live slot. */
  function Read(st: PoolState, k: nat): string
    requires st.Referenced(k)
  {
    st.elements[k].data
  }

  /** Writing through the reference returned by the mutable `getData(k)`. */
  function Write(st: PoolState, k: nat, text: string): (r: PoolState)
    requires st.Referenced(k)
    ensures r.free == st.free && |r.elements| == |st.elements|
    ensures r.Referenced(k) && Read(r, k) == text
    ensures r.elements[k].refCounter == st.elements[k].refCounter
    ensures forall j :: 0 <= j < |st.elements| && j != k ==> r.elements[j] == st.elements[j]
    ensures st.Inv() ==> r.Inv()
  {
    st.(elements := st.elements[k := st.elements[k].(data := text)])
  }

  // ---------------------------------------------------------------------
  // Properties of the pool operations

  /**
   * A fresh pool satisfies the invariant, and its first allocation hands
   * out the highest index (the constructor pushes 0 first, n-1 last).
   */
  lemma {:induction false} InitialIsValid(n: nat)
    ensures Initial(n).Inv()
    ensures n > 0 ==> Top(Initial(n)) == n - 1
  {
    var st := Initial(n);
    forall k | 0 <= k < n
      ensures k in st.free
    {
      assert st.free[k] == k;
    }
  }

  /**
   * The free stack is LIFO: when the last reference to a slot is dropped,
   * the very next allocation returns that slot, and the pool is then what
   * it was except that the slot's text has been cleared.
   */
  lemma {:induction false} ReleasedSlotIsReusedFirst(st: PoolState, k: nat)
    requires st.Inv() && k < |st.elements| && st.elements[k].refCounter == 1
    ensures Decrement(st, k).free != [] && Top(Decrement(st, k)) == k
    ensures Allocate(Decrement(st, k)) == st.(elements := st.elements[k := Element("", 1)])
  {
    var d := Decrement(st, k);
    assert d.free[..|d.free| - 1] == st.free;
    assert Allocate(d).elements == st.elements[k := Element("", 1)];
  }

  /**
   * Taking and then dropping a reference to a live slot leaves the pool as
   * it was (as long as the 8-bit counter does not wrap).
   */
  lemma {:induction false} IncrementThenDecrement(st: PoolState, k: nat)
    requires k < |st.elements| && 0 < st.elements[k].refCounter < 255
    ensures Decrement(Increment(st, k), k) == st
  {
    var i := Increment(st, k);
    assert i.elements[k].refCounter as int == st.elements[k].refCounter as int + 1;
    assert Decrement(i, k).elements == st.elements;
  }

  /**
   * Dropping a reference that is not the last one and taking it back
   * leaves the pool as it was.
   */
  lemma {:induction false} DecrementThenIncrement(st: PoolState, k: nat)
    requires k < |st.elements| && st.elements[k].refCounter > 1
    ensures Increment(Decrement(st, k), k) == st
  {
    var d := Decrement(st, k);
    assert d.elements[k].refCounter as int == st.elements[k].refCounter as int - 1;
    assert Increment(d, k).elements == st.elements;
  }

  // ---------------------------------------------------------------------
  // Counting the slots that are handed out

  /** Number of slots with a non-zero count. */
  function LiveCount(e: seq<Element>): (n: nat)
    ensures n <= |e|
  {
    if e == [] then 0
    else LiveCount(e[..|e| - 1]) + (if e[|e| - 1].refCounter > 0 then 1 else 0)
  }

  /** The indices of the slots with count 0. */
  function ZeroSlots(e: seq<Element>): set<nat>
  {
    if e == [] then {}
    else ZeroSlots(e[..|e| - 1]) + (if e[|e| - 1].refCounter == 0 then {|e| - 1} else {})
  }

  /** The indices stored in a stack, as a set. */
  function Elems(s: seq<nat>): set<nat>
  {
    if s == [] then {} else Elems(s[..|s| - 1]) + {s[|s| - 1]}
  }

  lemma {:induction false} ZeroSlotsExactly(e: seq<Element>)
    ensures forall k: nat :: k in ZeroSlots(e) <==> k < |e| && e[k].refCounter == 0
    ensures |ZeroSlots(e)| + LiveCount(e) == |e|
  {
    if e != [] {
      var p := e[..|e| - 1];
      ZeroSlotsExactly(p);
      assert |e| - 1 !in ZeroSlots(p);
    }
  }

  lemma {:induction false} ElemsExactly(s: seq<nat>)
    requires forall i, j :: 0 <= i < j < |s| ==> s[i] != s[j]
    ensures forall x :: x in Elems(s) <==> x in s
    ensures |Elems(s)| == |s|
  {
    if s != [] {
      var p := s[..|s| - 1];
      ElemsExactly(p);
      assert s == p + [s[|s| - 1]];
      assert s[|s| - 1] !in p;
    }
  }

  /**
   * The number of indices handed out and not yet returned (table size minus
   * free-stack height) is the number of slots with a non-zero count; in
   * particular the free stack is never taller than the table.
   */
  lemma {:induction false} HandedOutIsLive(st: PoolState)
    requires st.Inv()
    ensures |st.elements| - |st.free| == LiveCount(st.elements)
  {
    ZeroSlotsExactly(st.elements);
    ElemsExactly(st.free);
    assert Elems(st.free) == ZeroSlots(st.elements);
  }

  // ---------------------------------------------------------------------
  // The mutable pool object

  class StatusHandler {
    var elements: seq<Element>
    /** The free-index stack `m_indices`; its top is the last element. */
    var indices: seq<nat>
    /** The debug counter `m_maxValReach`. */
    var maxValReach: int

    function State(): PoolState
      reads this
    {
      PoolState(elements, indices)
    }

    /**
     * The pool invariant, plus: the debug counter counts the indices taken
     * from the free stack and not yet returned.
     */
    ghost predicate Valid()
      reads this
    {
      State().Inv() && maxValReach == |elements| - |indices|
    }

    /** `StatusHandler(initSize)`: `initSize` empty slots, all free. */
    constructor (initSize: nat)
      ensures Valid() && State() == Initial(initSize)
      ensures maxValReach == 0
    {
      elements := seq(initSize, _ => EmptySlot);
      indices := [];
      maxValReach := 0;
      new;
      var i := 0;
      while i < |elements|
        invariant 0 <= i <= |elements| == initSize
        invariant elements == seq(initSize, _ => EmptySlot) && maxValReach == 0
        invariant |indices| == i && forall j :: 0 <= j < i ==> indices[j] == j
      {
        indices := indices + [i];
        i := i + 1;
      }
      assert elements == Initial(initSize).elements && indices == Initial(initSize).free;
      InitialIsValid(initSize);
    }

    /** `returnAvailableIndex(index)`: push a slot whose count is 0. */
    method ReturnAvailableIndex(index: nat)
      requires index < |elements| && elements[index].refCounter == 0
      modifies this
      ensures elements == old(elements) && indices == old(indices) + [index]
      ensures maxValReach == old(maxValReach) - 1
    {
      indices := indices + [index];
      maxValReach := maxValReach - 1;
    }

    /** `getAvailableIndex()`: pop the top free index, count 1. */
    method GetAvailableIndex() returns (available: nat)
      requires Valid() && indices != []
      modifies this
      ensures Valid()
      ensures available == Top(old(State())) && State() == Allocate(old(State()))
      ensures maxValReach == old(maxValReach) + 1
    {
      available := indices[|indices| - 1];
      indices := indices[..|indices| - 1];
      assert available in old(indices);
      IncrementRef(available);
      maxValReach := maxValReach + 1;
    }

    /** `incrementRef(index)`. */
    method IncrementRef(index: nat)
      requires index < |elements|
      modifies this
      ensures State() == Increment(old(State()), index)
      ensures maxValReach == old(maxValReach)
      ensures old(Valid()) && 0 < old(elements[index].refCounter) < 255 ==> Valid()
    {
      var e := elements[index];
      elements := elements[index := e.(refCounter := Inc8(e.refCounter))];
    }

    /** `decrementRef(index)`. */
    method DecrementRef(index: nat)
      requires index < |elements|
      modifies this
      ensures State() == Decrement(old(State()), index)
      ensures old(elements[index].refCounter) == 1 ==> maxValReach == old(maxValReach) - 1
      ensures old(elements[index].refCounter) != 1 ==> maxValReach == old(maxValReach)
      ensures old(Valid()) && old(elements[index].refCounter) > 0 ==> Valid()
    {
      var e := elements[index];
      elements := elements[index := e.(refCounter := Dec8(e.refCounter))];
      if elements[index].refCounter == 0 {
        ReturnAvailableIndex(index);
        elements := elements[index := elements[index].(data := "")];
      }
    }

    /** The const `getData(index)`. */
    method GetData(index: nat) returns (data: string)
      requires index < |elements| && elements[index].refCounter > 0
      ensures data == Read(State(), index)
      ensures Valid() ==> index !in indices
    {
      data := elements[index].data;
    }

    /** Assigning `text` through the reference the mutable `getData(index)` returns. */
    method SetData(index: nat, text: string)
      requires index < |elements| && elements[index].refCounter > 0
      modifies this
      ensures State() == Write(old(State()), index, text)
      ensures maxValReach == old(maxValReach)
      ensures old(Valid()) ==> Valid()
    {
      elements := elements[index := elements[index].(data := text)];
    }
  }

  /**
   * The debug counter equals the number of slots currently referenced.
   */
  lemma MaxValReachCountsLiveSlots(pool: StatusHandler)
    requires pool.Valid()
    ensures pool.maxValReach == LiveCount(pool.elements)
  {
    HandedOutIsLive(pool.State());
  }
}
