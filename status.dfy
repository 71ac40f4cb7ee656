/**
 * The `Status` value: an error code, a severity and an optional
 * description held in a slot of the shared description pool.
 *
 * A `Status` is a plain value here. Every operation that touches the pool
 * is given as a function from the status and the pool's state (a
 * `Handler.PoolState`) to the new status and the new pool state; the
 * methods of module `StatusOps` perform them on a live `StatusHandler`.
 */
module Statuses {
  import opened Handler

  /** The error codes. */
  datatype StatusCode = NoError | InternalError | InvalidArgs | NotPossible

  /** The severities; `Undefined` means "no severity given". */
  datatype StatusSeverity = Undefined | Critical | Normal | Low

  /** The numeric encoding of a severity (0..3). */
  function SeverityValue(s: StatusSeverity): nat
  {
    match s
    case Undefined => 0
    case Critical => 1
    case Normal => 2
    case Low => 3
  }

  /** The sentinel slot index meaning "no description" (1 << 15). */
  const INV_INDEX: nat := 0x8000

  /** A C string argument: the null pointer or some characters. */
  datatype CString = Null | Chars(chars: string)

  datatype Status = Status(code: StatusCode, severity: StatusSeverity, index: nat) {

    /** `containsDescription()`. */
    predicate ContainsDescription() {
      index != INV_INDEX
    }

    /** `operator bool`: success is exactly the code `NoError`. */
    predicate IsOk() {
      code == NoError
    }
  }

  /**
   * The pool can hold every slot index apart from the sentinel, so an index
   * handed out never reads as "no description".
   */
  predicate Fits(st: PoolState) {
    |st.elements| <= INV_INDEX
  }

  /** A status is live in a pool when its slot, if any, is referenced. */
  predicate Live(s: Status, st: PoolState) {
    s.ContainsDescription() ==> st.Referenced(s.index)
  }

  /**
   * Taking one more reference to the status's slot does not wrap its 8-bit
   * counter.
   */
  predicate Copyable(s: Status, st: PoolState) {
    s.ContainsDescription() ==> s.index < |st.elements| && st.elements[s.index].refCounter < 255
  }

  // ---------------------------------------------------------------------
  // Construction

  /** `Status(code, severity)`. */
  function Make(code: StatusCode, severity: StatusSeverity): (s: Status)
    ensures s.code == code && s.severity == severity
    ensures !s.ContainsDescription()
    ensures forall st: PoolState :: Live(s, st) && Description(s, st) == ""
  {
    Status(code, severity, INV_INDEX)
  }

  /** `Status()`: an internal error with undefined severity. */
  function Default(): (s: Status)
    ensures !s.IsOk() && s.code == InternalError && s.severity == Undefined
    ensures !s.ContainsDescription()
  {
    Make(InternalError, Undefined)
  }

  /** `Status(allesGut)`: success or a normal-severity internal error. */
  function FromBool(allesGut: bool): (s: Status)
    ensures s.IsOk() <==> allesGut
    ensures allesGut ==> s.code == NoError && s.severity == Undefined
    ensures !allesGut ==> s.code == InternalError && s.severity == Normal
    ensures !s.ContainsDescription()
  {
    if allesGut then Make(NoError, Undefined) else Make(InternalError, Normal)
  }

  /**
   * `Status(code, severity, const std::string&)`: a slot is taken exactly
   * when the text is non-empty.
   */
  function WithText(code: StatusCode, severity: StatusSeverity, text: string, st: PoolState): (res: (Status, PoolState))
    requires st.Inv() && Fits(st) && (text != "" ==> st.free != [])
    ensures res.0.code == code && res.0.severity == severity
    ensures res.0.ContainsDescription() <==> text != ""
    ensures res.1.Inv() && Live(res.0, res.1) && Description(res.0, res.1) == text
    ensures text == "" ==> res.1 == st
    ensures text != "" ==> res.0.index == Top(st) && res.1 == AllocateWith(st, text)
  {
    if text != "" then AppendDescription(Make(code, severity), st, text)
    else (Make(code, severity), st)
  }

  /**
   * `Status(code, severity, const char*)`: a slot is taken whenever the
   * pointer is not null, even for an empty string.
   */
  function WithCString(code: StatusCode, severity: StatusSeverity, text: CString, st: PoolState): (res: (Status, PoolState))
    requires st.Inv() && Fits(st) && (text.Chars? ==> st.free != [])
    ensures res.0.code == code && res.0.severity == severity
    ensures res.0.ContainsDescription() <==> text.Chars?
    ensures res.1.Inv() && Live(res.0, res.1)
    ensures Description(res.0, res.1) == if text.Chars? then text.chars else ""
    ensures text.Null? ==> res.1 == st
    ensures text.Chars? ==> res.0.index == Top(st) && res.1 == AllocateWith(st, text.chars)
  {
    if text.Chars? then AppendDescription(Make(code, severity), st, text.chars)
    else (Make(code, severity), st)
  }

  // ---------------------------------------------------------------------
  // Reading and changing the fields

  /** `changeCode(newCode)`: only the code changes. */
  function ChangeCode(s: Status, newCode: StatusCode): (r: Status)
    ensures r.code == newCode && r.severity == s.severity && r.index == s.index
    ensures r.IsOk() <==> newCode == NoError
  {
    s.(code := newCode)
  }

  /** `changeSeverity(newSeverity)`: only the severity changes. */
  function ChangeSeverity(s: Status, newSeverity: StatusSeverity): (r: Status)
    ensures r.severity == newSeverity && r.code == s.code && r.index == s.index
  {
    s.(severity := newSeverity)
  }

  /** `description()`: the text of the slot, or "" when there is none. */
  function Description(s: Status, st: PoolState): string
    requires Live(s, st)
  {
    if s.ContainsDescription() then Read(st, s.index) else ""
  }

  /** `descriptionStd()`: only defined for a status with a slot. */
  function DescriptionStd(s: Status, st: PoolState): (r: string)
    requires s.ContainsDescription() && Live(s, st)
    ensures r == Description(s, st)
  {
    Read(st, s.index)
  }

  /** `Allocate` followed by writing `text` into the slot it hands out. */
  function AllocateWith(st: PoolState, text: string): PoolState
    requires st.Inv() && st.free != []
  {
    Write(Allocate(st), Top(st), text)
  }

  // ---------------------------------------------------------------------
  // Pool-touching operations

  /**
   * `appendDescription(desc)`: take a slot if none is held, then append
   * `desc` to its text.
   */
  function AppendDescription(s: Status, st: PoolState, desc: string): (res: (Status, PoolState))
    requires st.Inv() && Fits(st) && Live(s, st)
    requires s.ContainsDescription() || st.free != []
    ensures res.0.code == s.code && res.0.severity == s.severity
    ensures res.0.ContainsDescription() && res.1.Inv() && Live(res.0, res.1)
    ensures Description(res.0, res.1) == Description(s, st) + desc
    ensures s.ContainsDescription() ==> res.0.index == s.index && res.1.free == st.free
    ensures s.ContainsDescription() ==> res.1.elements[s.index].refCounter == st.elements[s.index].refCounter
    ensures !s.ContainsDescription() ==> res.0.index == Top(st) && st.elements[Top(st)] == EmptySlot
    ensures !s.ContainsDescription() ==> res.1.free == st.free[..|st.free| - 1] && res.1.elements[res.0.index].refCounter == 1
    ensures |res.1.elements| == |st.elements|
    ensures forall j :: 0 <= j < |st.elements| && j != res.0.index ==> res.1.elements[j] == st.elements[j]
  {
    var (idx, st1) := if s.ContainsDescription() then (s.index, st) else (Top(st), Allocate(st));
    (s.(index := idx), Write(st1, idx, Read(st1, idx) + desc))
  }

  /** Destruction: drop this status's reference, if it holds one. */
  function Destroy(s: Status, st: PoolState): (r: PoolState)
    requires Live(s, st)
    ensures |r.elements| == |st.elements|
    ensures !s.ContainsDescription() ==> r == st
    ensures s.ContainsDescription() ==> r.elements[s.index].refCounter == Dec8(st.elements[s.index].refCounter)
    ensures s.ContainsDescription() && st.elements[s.index].refCounter == 1 ==>
              r.free == st.free + [s.index] && r.elements[s.index].data == ""
    ensures s.ContainsDescription() && st.elements[s.index].refCounter > 1 ==>
              r.free == st.free && r.elements[s.index].data == st.elements[s.index].data
    ensures forall j :: 0 <= j < |st.elements| && j != s.index ==> r.elements[j] == st.elements[j]
    ensures st.Inv() ==> r.Inv()
  {
    if s.ContainsDescription() then Decrement(st, s.index) else st
  }

  /** Copy construction: take one more reference to the source's slot. */
  function Copy(s: Status, st: PoolState): (r: PoolState)
    requires Live(s, st)
    ensures |r.elements| == |st.elements| && r.free == st.free
    ensures !s.ContainsDescription() ==> r == st
    ensures s.ContainsDescription() ==> r.elements[s.index].refCounter == Inc8(st.elements[s.index].refCounter)
    ensures forall j :: 0 <= j < |st.elements| && j != s.index ==> r.elements[j] == st.elements[j]
    ensures Copyable(s, st) ==> Live(s, r) && Description(s, r) == Description(s, st)
    ensures st.Inv() && Copyable(s, st) ==> r.Inv()
  {
    if s.ContainsDescription() then Increment(st, s.index) else st
  }

  /**
   * `clearDescription()`: drop the slot, if any, and forget it.
   */
  function ClearDescription(s: Status, st: PoolState): (res: (Status, PoolState))
    requires Live(s, st)
    ensures !res.0.ContainsDescription() && res.0.code == s.code && res.0.severity == s.severity
    ensures res.1 == Destroy(s, st)
    ensures Live(res.0, res.1) && Description(res.0, res.1) == ""
  {
    (s.(index := INV_INDEX), Destroy(s, st))
  }

  /**
   * `operator=` as written: the target takes the source's fields and one
   * more reference to its slot. The target's previous slot is NOT released.
   */
  function Assign(target: Status, other: Status, st: PoolState): (res: (Status, PoolState))
    requires Live(other, st)
    ensures res.0 == other && res.1 == Copy(other, st)
  {
    (other, Copy(other, st))
  }

  /**
   * The merged severity of `+=`: `Undefined` yields to the other side,
   * otherwise the numerically smaller (more severe) one wins.
   */
  function MergedSeverity(mine: StatusSeverity, other: StatusSeverity): (r: StatusSeverity)
    ensures r == mine || r == other
    ensures mine == Undefined ==> r == other
    ensures other == Undefined ==> r == mine
    ensures mine != Undefined && other != Undefined ==>
              SeverityValue(r) <= SeverityValue(mine) && SeverityValue(r) <= SeverityValue(other)
  {
    if other != mine then
      if mine == Undefined then other
      else if other == Undefined then mine
      else if SeverityValue(other) < SeverityValue(mine) then other else mine
    else mine
  }

  /** The merged code of `+=`: differing codes collapse to `InternalError`. */
  function MergedCode(mine: StatusCode, other: StatusCode): (r: StatusCode)
    ensures mine == other ==> r == mine
    ensures mine != other ==> r == InternalError
    ensures r == NoError <==> mine == NoError && other == NoError
  {
    if other != mine then InternalError else mine
  }

  /**
   * `operator+=`: append the other's description (taking a slot of our own
   * if needed, never sharing the other's), then merge severity and code.
   */
  function Merge(s: Status, other: Status, st: PoolState): (res: (Status, PoolState))
    requires st.Inv() && Fits(st) && Live(s, st) && Live(other, st)
    requires other.ContainsDescription() && !s.ContainsDescription() ==> st.free != []
    ensures res.0.code == MergedCode(s.code, other.code)
    ensures res.0.severity == MergedSeverity(s.severity, other.severity)
    ensures res.0.IsOk() <==> s.IsOk() && other.IsOk()
    ensures res.1.Inv() && Live(res.0, res.1)
    ensures Description(res.0, res.1) == Description(s, st) + Description(other, st)
    ensures res.0.ContainsDescription() <==> s.ContainsDescription() || other.ContainsDescription()
    ensures s.ContainsDescription() ==> res.0.index == s.index
    ensures !s.ContainsDescription() && other.ContainsDescription() ==> res.0.index != other.index
    ensures !other.ContainsDescription() ==> res.1 == st && res.0.index == s.index
    ensures |res.1.elements| == |st.elements|
    ensures forall j :: 0 <= j < |st.elements| && j != res.0.index ==> res.1.elements[j] == st.elements[j]
    ensures other.ContainsDescription() && s.ContainsDescription() ==>
              res.1.free == st.free && res.1.elements[s.index].refCounter == st.elements[s.index].refCounter
    ensures other.ContainsDescription() && !s.ContainsDescription() ==>
              res.0.index == Top(st) && res.1.free == st.free[..|st.free| - 1] && res.1.elements[res.0.index].refCounter == 1
  {
    var (s1, st1) :=
      if other.ContainsDescription() then AppendDescription(s, st, DescriptionStd(other, st))
      else (s, st);
    (s1.(severity := MergedSeverity(s1.severity, other.severity),
         code := MergedCode(s1.code, other.code)), st1)
  }

  // ---------------------------------------------------------------------
  // Properties

  /**
   * The priority the severity merge follows: Critical over Normal over Low,
   * and Undefined below all of them (although it is encoded as 0).
   */
  function Priority(s: StatusSeverity): nat
  {
    match s
    case Undefined => 0
    case Low => 1
    case Normal => 2
    case Critical => 3
  }

  /** The merged severity is the one of higher priority. */
  lemma MergedSeverityHasHighestPriority(a: StatusSeverity, b: StatusSeverity)
    ensures var r := MergedSeverity(a, b);
            (r == a || r == b) && Priority(r) >= Priority(a) && Priority(r) >= Priority(b)
  {
  }

  /**
   * Merging severities does not depend on order or grouping, and Undefined
   * is its neutral element, so folding `+=` over many statuses gives the
   * highest-priority severity among them.
   */
  lemma MergedSeverityIsOrderFree(a: StatusSeverity, b: StatusSeverity, c: StatusSeverity)
    ensures MergedSeverity(a, b) == MergedSeverity(b, a)
    ensures MergedSeverity(MergedSeverity(a, b), c) == MergedSeverity(a, MergedSeverity(b, c))
    ensures MergedSeverity(Undefined, a) == a == MergedSeverity(a, Undefined)
    ensures MergedSeverity(a, a) == a
  {
  }

  /** Merging codes does not depend on order or grouping either. */
  lemma MergedCodeIsOrderFree(a: StatusCode, b: StatusCode, c: StatusCode)
    ensures MergedCode(a, b) == MergedCode(b, a)
    ensures MergedCode(MergedCode(a, b), c) == MergedCode(a, MergedCode(b, c))
    ensures MergedCode(a, a) == a
  {
  }

  /**
   * Copying a status and destroying the copy (or the original) leaves the
   * pool exactly as it was: the description stays readable through the
   * remaining holder.
   */
  lemma {:induction false} CopyThenDestroy(s: Status, st: PoolState)
    requires Live(s, st) && Copyable(s, st)
    ensures Live(s, Copy(s, st)) && Destroy(s, Copy(s, st)) == st
    ensures Live(s, Destroy(s, Copy(s, st))) && Description(s, Destroy(s, Copy(s, st))) == Description(s, st)
  {
    if s.ContainsDescription() {
      IncrementThenDecrement(st, s.index);
    }
  }

  /** `clearDescription()` is idempotent. */
  lemma {:induction false} ClearIsIdempotent(s: Status, st: PoolState)
    requires Live(s, st)
    ensures var (r, st') := ClearDescription(s, st); ClearDescription(r, st') == (r, st')
  {
  }

  /**
   * `a += b` leaves `b` readable with its own description unchanged, as
   * long as `a` does not already share `b`'s slot.
   */
  lemma {:induction false} MergeKeepsOtherDescription(a: Status, b: Status, st: PoolState)
    requires st.Inv() && Fits(st) && Live(a, st) && Live(b, st)
    requires b.ContainsDescription() && !a.ContainsDescription() ==> st.free != []
    requires a.ContainsDescription() && b.ContainsDescription() ==> a.index != b.index
    ensures var (r, st') := Merge(a, b, st); Live(b, st') && Description(b, st') == Description(b, st)
  {
    var (r, st') := Merge(a, b, st);
    if b.ContainsDescription() && !a.ContainsDescription() {
      assert Top(st) in st.free;
    }
  }

  /** `s += s` doubles the description and keeps code and severity. */
  lemma {:induction false} SelfMergeDoubles(s: Status, st: PoolState)
    requires st.Inv() && Fits(st) && Live(s, st)
    ensures var (r, st') := Merge(s, s, st);
            Live(r, st') && Description(r, st') == Description(s, st) + Description(s, st) &&
            r.code == s.code && r.severity == s.severity && r.index == s.index
  {
  }
}
