/**
 * Reference ownership: every slot's count equals the number of live
 * statuses that hold it. `Owned(st, held)` says that the statuses in
 * `held` (the copies the program currently keeps, in any order) account
 * for every reference in the pool. Each operation that models a copy,
 * destruction, clear, append, merge or construction keeps that accounting
 * when the sequence of held statuses is updated accordingly; `operator=`
 * as written does not (see `AssignLeaksOldSlot`), and `AssignReleasing`
 * is the version that does.
 */
module Ownership {
  import opened Handler
  import opened Statuses

  datatype Option<T> = None | Some(value: T)

  /** How many of the statuses in `held` hold slot `k`. */
  function Holders(held: seq<Status>, k: nat): nat
  {
    if held == [] then 0
    else Holders(held[..|held| - 1], k) + (if held[|held| - 1].index == k then 1 else 0)
  }

  /** The pool's counts are exactly the references held by `held`. */
  ghost predicate Owned(st: PoolState, held: seq<Status>) {
    && st.Inv() && Fits(st)
    && (forall i :: 0 <= i < |held| ==> (held[i].ContainsDescription() ==> held[i].index < |st.elements|))
    && (forall k :: 0 <= k < |st.elements| ==> st.elements[k].refCounter as int == Holders(held, k))
  }

  /** The slot indices the statuses in `held` refer to. */
  function Slots(held: seq<Status>): set<nat>
  {
    set i | 0 <= i < |held| :: held[i].index
  }

  // ---------------------------------------------------------------------
  // Counting holders

  lemma {:induction false} HoldersConcat(a: seq<Status>, b: seq<Status>, k: nat)
    ensures Holders(a + b, k) == Holders(a, k) + Holders(b, k)
  {
    if b == [] {
      assert a + b == a;
    } else {
      var b' := b[..|b| - 1];
      assert (a + b)[..|a + b| - 1] == a + b';
      HoldersConcat(a, b', k);
    }
  }

  /** Splitting `held` around position `i`. */
  lemma {:induction false} HoldersAt(held: seq<Status>, i: nat, k: nat)
    requires i < |held|
    ensures Holders(held, k) ==
            Holders(held[..i], k) + (if held[i].index == k then 1 else 0) + Holders(held[i + 1..], k)
  {
    assert held == held[..i] + [held[i]] + held[i + 1..];
    HoldersConcat(held[..i] + [held[i]], held[i + 1..], k);
    HoldersConcat(held[..i], [held[i]], k);
    assert [held[i]][..0] == [];
  }

  /** Replacing the status at position `i` moves one reference. */
  lemma {:induction false} HoldersUpdate(held: seq<Status>, i: nat, s: Status, k: nat)
    requires i < |held|
    ensures Holders(held[i := s], k) + (if held[i].index == k then 1 else 0)
            == Holders(held, k) + (if s.index == k then 1 else 0)
  {
    HoldersAt(held, i, k);
    HoldersAt(held[i := s], i, k);
    assert held[i := s][..i] == held[..i];
    assert held[i := s][i + 1..] == held[i + 1..];
  }

  /** Adding a status at the end adds its reference. */
  lemma {:induction false} HoldersAppend(held: seq<Status>, s: Status, k: nat)
    ensures Holders(held + [s], k) == Holders(held, k) + (if s.index == k then 1 else 0)
  {
    assert (held + [s])[..|held|] == held;
  }

  /** Removing the status at position `i` removes its reference. */
  lemma {:induction false} HoldersRemove(held: seq<Status>, i: nat, k: nat)
    requires i < |held|
    ensures Holders(held[..i] + held[i + 1..], k) + (if held[i].index == k then 1 else 0) == Holders(held, k)
  {
    HoldersAt(held, i, k);
    HoldersConcat(held[..i], held[i + 1..], k);
  }

  // ---------------------------------------------------------------------
  // Consequences of ownership

  /** Every held status is live: its slot, if any, has a non-zero count. */
  lemma {:induction false} HeldIsLive(st: PoolState, held: seq<Status>, i: nat)
    requires Owned(st, held) && i < |held|
    ensures Live(held[i], st)
  {
    HoldersAt(held, i, held[i].index);
  }

  /**
   * A slot no held status refers to is free: on the free stack, with empty
   * text. So once every copy of a described status is destroyed its slot
   * can be handed out again.
   */
  lemma {:induction false} UnheldSlotIsFree(st: PoolState, held: seq<Status>, k: nat)
    requires Owned(st, held) && k < |st.elements|
    requires forall i :: 0 <= i < |held| ==> held[i].index != k
    ensures k in st.free && st.elements[k].data == ""
  {
    HoldersZero(held, k);
  }

  lemma {:induction false} HoldersZero(held: seq<Status>, k: nat)
    requires forall i :: 0 <= i < |held| ==> held[i].index != k
    ensures Holders(held, k) == 0
  {
    if held != [] {
      HoldersZero(held[..|held| - 1], k);
    }
  }

  /**
   * Statuses that share a slot see each other's appends: appending to one
   * copy extends the description read through every other copy.
   */
  lemma {:induction false} AppendIsSeenBySharers(st: PoolState, held: seq<Status>, i: nat, j: nat, desc: string)
    requires Owned(st, held) && i < |held| && j < |held|
    requires held[i].ContainsDescription() && held[j].index == held[i].index
    ensures Live(held[i], st) && Live(held[j], st)
    ensures var (r, st') := AppendDescription(held[i], st, desc);
            Live(held[j], st') && Description(held[j], st') == Description(held[j], st) + desc
  {
    HeldIsLive(st, held, i);
  }

  // ---------------------------------------------------------------------
  // Each operation keeps the accounting

  /** Copy construction: the copy joins the holders. */
  lemma {:induction false} CopyKeepsOwnership(st: PoolState, held: seq<Status>, i: nat)
    requires Owned(st, held) && i < |held| && Copyable(held[i], st)
    ensures Live(held[i], st)
    ensures Owned(Statuses.Copy(held[i], st), held + [held[i]])
  {
    HeldIsLive(st, held, i);
    var st' := Statuses.Copy(held[i], st);
    var held' := held + [held[i]];
    forall k | 0 <= k < |st'.elements|
      ensures st'.elements[k].refCounter as int == Holders(held', k)
    {
      HoldersAppend(held, held[i], k);
    }
  }

  /** Destruction: the destroyed status leaves the holders. */
  lemma {:induction false} DestroyKeepsOwnership(st: PoolState, held: seq<Status>, i: nat)
    requires Owned(st, held) && i < |held|
    ensures Live(held[i], st)
    ensures Owned(Statuses.Destroy(held[i], st), held[..i] + held[i + 1..])
  {
    HeldIsLive(st, held, i);
    var st' := Statuses.Destroy(held[i], st);
    var held' := held[..i] + held[i + 1..];
    forall k | 0 <= k < |st'.elements|
      ensures st'.elements[k].refCounter as int == Holders(held', k)
    {
      HoldersRemove(held, i, k);
    }
    forall m | 0 <= m < |held'|
      ensures held'[m].ContainsDescription() ==> held'[m].index < |st'.elements|
    {
      if m < i { assert held'[m] == held[m]; } else { assert held'[m] == held[m + 1]; }
    }
  }

  /** `clearDescription()`: the cleared status no longer holds its slot. */
  lemma {:induction false} ClearKeepsOwnership(st: PoolState, held: seq<Status>, i: nat)
    requires Owned(st, held) && i < |held|
    ensures Live(held[i], st)
    ensures var (r, st') := ClearDescription(held[i], st); Owned(st', held[i := r])
  {
    HeldIsLive(st, held, i);
    var (r, st') := ClearDescription(held[i], st);
    forall k | 0 <= k < |st'.elements|
      ensures st'.elements[k].refCounter as int == Holders(held[i := r], k)
    {
      HoldersUpdate(held, i, r, k);
    }
  }

  /** `appendDescription(desc)`: a newly taken slot is held by the status. */
  lemma {:induction false} AppendKeepsOwnership(st: PoolState, held: seq<Status>, i: nat, desc: string)
    requires Owned(st, held) && i < |held|
    requires held[i].ContainsDescription() || st.free != []
    ensures Live(held[i], st)
    ensures var (r, st') := AppendDescription(held[i], st, desc); Owned(st', held[i := r])
  {
    HeldIsLive(st, held, i);
    var (r, st') := AppendDescription(held[i], st, desc);
    forall k | 0 <= k < |st'.elements|
      ensures st'.elements[k].refCounter as int == Holders(held[i := r], k)
    {
      HoldersUpdate(held, i, r, k);
    }
  }

  /** `operator+=`: the merged status replaces the target among the holders. */
  lemma {:induction false} MergeKeepsOwnership(st: PoolState, held: seq<Status>, i: nat, j: nat)
    requires Owned(st, held) && i < |held| && j < |held|
    requires held[j].ContainsDescription() && !held[i].ContainsDescription() ==> st.free != []
    ensures Live(held[i], st) && Live(held[j], st)
    ensures var (r, st') := Merge(held[i], held[j], st); Owned(st', held[i := r])
  {
    HeldIsLive(st, held, i);
    HeldIsLive(st, held, j);
    var (r, st') := Merge(held[i], held[j], st);
    forall k | 0 <= k < |st'.elements|
      ensures st'.elements[k].refCounter as int == Holders(held[i := r], k)
    {
      HoldersUpdate(held, i, r, k);
      if !held[j].ContainsDescription() {
        assert r.index == held[i].index;
      }
    }
  }

  /** `Status(code, severity, text)`: the new status joins the holders. */
  lemma {:induction false} WithTextKeepsOwnership(
    st: PoolState, held: seq<Status>, code: StatusCode, severity: StatusSeverity, text: string)
    requires Owned(st, held) && (text != "" ==> st.free != [])
    ensures var (s, st') := WithText(code, severity, text, st); Owned(st', held + [s])
  {
    var (s, st') := WithText(code, severity, text, st);
    forall k | 0 <= k < |st'.elements|
      ensures st'.elements[k].refCounter as int == Holders(held + [s], k)
    {
      HoldersAppend(held, s, k);
      if text != "" && k == s.index {
        assert st.elements[k].refCounter == 0;
      }
    }
  }

  /** `Status(code, severity, const char*)`: the new status joins the holders. */
  lemma {:induction false} WithCStringKeepsOwnership(
    st: PoolState, held: seq<Status>, code: StatusCode, severity: StatusSeverity, text: CString)
    requires Owned(st, held) && (text.Chars? ==> st.free != [])
    ensures var (s, st') := WithCString(code, severity, text, st); Owned(st', held + [s])
  {
    var (s, st') := WithCString(code, severity, text, st);
    forall k | 0 <= k < |st'.elements|
      ensures st'.elements[k].refCounter as int == Holders(held + [s], k)
    {
      HoldersAppend(held, s, k);
      if text.Chars? && k == s.index {
        assert st.elements[k].refCounter == 0;
      }
    }
  }

  // ---------------------------------------------------------------------
  // The 8-bit counter

  /**
   * The copy constructor as written wraps the 8-bit count: starting from a
   * slot with 255 holders, two more copies and one destruction leave a slot
   * that 256 statuses still hold cleared and back on the free stack, so the
   * next allocation hands it out again. The second copy and the
   * destruction are the bare `incrementRef`/`decrementRef` the source
   * performs (`Increment`, `Decrement`), because once the count has wrapped
   * to 0 the status is no longer `Live`.
   */
  lemma {:induction false} CopyWrapsSharedSlot(st: PoolState, held: seq<Status>, i: nat)
    requires Owned(st, held) && i < |held| && held[i].ContainsDescription()
    requires st.elements[held[i].index].refCounter == 255
    ensures var k := held[i].index;
            var st1 := Statuses.Copy(held[i], st);
            var st2 := Increment(st1, k);
            var st3 := Decrement(st2, k);
            && st1.elements[k].refCounter == 0 && !Live(held[i], st1) && !st1.Inv()
            && st2.elements[k].refCounter == 1
            && Holders(held + [held[i]], k) == 256
            && k in st3.free && st3.elements[k].data == "" && Top(st3) == k
  {
    var s := held[i];
    var k := s.index;
    var st1 := Statuses.Copy(s, st);
    assert st1.elements[k].refCounter == 0;
    assert k !in st1.free by {
      HeldIsLive(st, held, i);
      assert k !in st.free;
    }
    HoldersAppend(held, s, k);
  }

  /**
   * The copy the 8-bit counter calls for: refuse (`None`) when one more
   * reference would wrap the slot's count, otherwise take it.
   */
  function CheckedCopy(s: Status, st: PoolState): (r: Option<PoolState>)
    requires Live(s, st)
    ensures r.None? <==> !Copyable(s, st)
    ensures r.Some? ==> r.value == Statuses.Copy(s, st)
    ensures r.Some? ==> Live(s, r.value) && Description(s, r.value) == Description(s, st)
    ensures r.Some? && st.Inv() ==> r.value.Inv()
  {
    if Copyable(s, st) then Some(Statuses.Copy(s, st)) else None
  }

  /** A checked copy that succeeds keeps the accounting; one that is refused changes nothing. */
  lemma {:induction false} CheckedCopyKeepsOwnership(st: PoolState, held: seq<Status>, i: nat)
    requires Owned(st, held) && i < |held|
    ensures Live(held[i], st)
    ensures var r := CheckedCopy(held[i], st); r.Some? ==> Owned(r.value, held + [held[i]])
  {
    HeldIsLive(st, held, i);
    if Copyable(held[i], st) {
      CopyKeepsOwnership(st, held, i);
    }
  }

  // ---------------------------------------------------------------------
  // Assignment

  /**
   * `operator=` as written leaks: after `held[i] = held[j]`, the target's
   * old slot still counts the reference the target no longer holds. The
   * pool is accounted for only if that old value is kept as a phantom
   * holder.
   */
  lemma {:induction false} AssignLeaksOldSlot(st: PoolState, held: seq<Status>, i: nat, j: nat)
    requires Owned(st, held) && i < |held| && j < |held| && Copyable(held[j], st)
    requires held[i].ContainsDescription()
    ensures Live(held[j], st)
    ensures var (r, st') := Assign(held[i], held[j], st);
            !Owned(st', held[i := r]) && Owned(st', held[i := r] + [held[i]])
  {
    HeldIsLive(st, held, j);
    var (r, st') := Assign(held[i], held[j], st);
    var k := held[i].index;
    HoldersUpdate(held, i, r, k);
    assert st'.elements[k].refCounter as int != Holders(held[i := r], k);
    var held' := held[i := r] + [held[i]];
    forall m | 0 <= m < |st'.elements|
      ensures st'.elements[m].refCounter as int == Holders(held', m)
    {
      HoldersUpdate(held, i, r, m);
      HoldersAppend(held[i := r], held[i], m);
    }
  }

  /**
   * Self-assignment as written adds a reference nobody holds: the slot's
   * count goes up by one while the holders stay the same.
   */
  lemma {:induction false} SelfAssignBumpsCount(st: PoolState, held: seq<Status>, i: nat)
    requires Owned(st, held) && i < |held| && Copyable(held[i], st)
    requires held[i].ContainsDescription()
    ensures Live(held[i], st)
    ensures var (r, st') := Assign(held[i], held[i], st);
            r == held[i] && held[i := r] == held &&
            st'.elements[r.index].refCounter as int == Holders(held, r.index) + 1
  {
    HeldIsLive(st, held, i);
  }

  /**
   * The assignment the source intends: take a reference to the source's
   * slot first, then release the target's old one (which makes
   * self-assignment harmless).
   */
  function AssignReleasing(target: Status, other: Status, st: PoolState): (res: (Status, PoolState))
    requires Live(target, st) && Live(other, st) && Copyable(other, st)
    ensures res.0 == other
    ensures st.Inv() ==> res.1.Inv()
  {
    var st1 := Statuses.Copy(other, st);
    assert Live(target, st1);
    (other, Statuses.Destroy(target, st1))
  }

  /** The intended assignment keeps the accounting. */
  lemma {:induction false} AssignReleasingKeepsOwnership(st: PoolState, held: seq<Status>, i: nat, j: nat)
    requires Owned(st, held) && i < |held| && j < |held| && Copyable(held[j], st)
    ensures Live(held[i], st) && Live(held[j], st)
    ensures var (r, st') := AssignReleasing(held[i], held[j], st); Owned(st', held[i := r])
  {
    HeldIsLive(st, held, i);
    HeldIsLive(st, held, j);
    var (r, st') := AssignReleasing(held[i], held[j], st);
    forall k | 0 <= k < |st'.elements|
      ensures st'.elements[k].refCounter as int == Holders(held[i := r], k)
    {
      HoldersUpdate(held, i, r, k);
    }
  }

  /**
   * When every slot is held by some status, the free stack is empty: the
   * next allocation (a new description) is a contract violation.
   */
  lemma {:induction false} ExhaustedWhenEverySlotHeld(st: PoolState, held: seq<Status>)
    requires Owned(st, held)
    requires forall k :: 0 <= k < |st.elements| ==> k in Slots(held)
    ensures st.free == []
  {
    if st.free != [] {
      var k := st.free[0];
      assert k in Slots(held);
      var i :| 0 <= i < |held| && held[i].index == k;
      HoldersAt(held, i, k);
      assert false;
    }
  }
}
