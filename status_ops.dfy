/**
 * The `Status` operations that change the shared description pool,
 * performed on a live `StatusHandler` passed explicitly (in place of the
 * process-wide `Status::s_shandler` pointer). Each method is proved to
 * leave the pool in the state the matching function of `Statuses` gives.
 */
module StatusOps {
  import opened Handler
  import opened Statuses
  import Ownership

  /** `appendDescription(desc)`, both the `std::string` and the `const char*` overload. */
  method AppendDescription(s: Status, pool: StatusHandler, desc: string) returns (r: Status)
    requires pool.Valid() && Fits(pool.State()) && Live(s, pool.State())
    requires s.ContainsDescription() || pool.indices != []
    modifies pool
    ensures pool.Valid()
    ensures (r, pool.State()) == Statuses.AppendDescription(s, old(pool.State()), desc)
    ensures pool.maxValReach == old(pool.maxValReach) + (if s.ContainsDescription() then 0 else 1)
  {
    var index := s.index;
    if !s.ContainsDescription() {
      index := pool.GetAvailableIndex();
    }
    var text := pool.GetData(index);
    pool.SetData(index, text + desc);
    r := s.(index := index);
  }

  /** `Status(code, severity, const std::string&)`. */
  method NewWithText(code: StatusCode, severity: StatusSeverity, description: string, pool: StatusHandler)
    returns (s: Status)
    requires pool.Valid() && Fits(pool.State()) && (description != "" ==> pool.indices != [])
    modifies pool
    ensures pool.Valid()
    ensures (s, pool.State()) == WithText(code, severity, description, old(pool.State()))
  {
    s := Make(code, severity);
    if description != "" {
      s := AppendDescription(s, pool, description);
    }
  }

  /** `Status(code, severity, const char*)`; `Null` is the null pointer. */
  method NewWithCString(code: StatusCode, severity: StatusSeverity, description: CString, pool: StatusHandler)
    returns (s: Status)
    requires pool.Valid() && Fits(pool.State()) && (description.Chars? ==> pool.indices != [])
    modifies pool
    ensures pool.Valid()
    ensures (s, pool.State()) == WithCString(code, severity, description, old(pool.State()))
  {
    s := Make(code, severity);
    if description.Chars? {
      s := AppendDescription(s, pool, description.chars);
    }
  }

  /** `description()`: reads the pool, changes nothing. */
  method GetDescription(s: Status, pool: StatusHandler) returns (text: string)
    requires Live(s, pool.State())
    ensures text == Description(s, pool.State())
    ensures !s.ContainsDescription() ==> text == ""
  {
    if !s.ContainsDescription() {
      return "";
    }
    text := pool.GetData(s.index);
  }

  /** `descriptionStd()`: only for a status that holds a slot. */
  method GetDescriptionStd(s: Status, pool: StatusHandler) returns (text: string)
    requires s.ContainsDescription() && Live(s, pool.State())
    ensures text == Description(s, pool.State())
  {
    text := pool.GetData(s.index);
  }

  /** The copy constructor: the copy is the same value plus one reference. */
  method Copy(s: Status, pool: StatusHandler) returns (r: Status)
    requires pool.Valid() && Live(s, pool.State())
    modifies pool
    ensures r == s && pool.State() == Statuses.Copy(s, old(pool.State()))
    ensures old(Copyable(s, pool.State())) ==> pool.Valid()
    ensures pool.maxValReach == old(pool.maxValReach)
  {
    r := s;
    if r.ContainsDescription() {
      pool.IncrementRef(r.index);
    }
  }

  /** The destructor: drop this status's reference, if any. */
  method Destroy(s: Status, pool: StatusHandler)
    requires pool.Valid() && Live(s, pool.State())
    modifies pool
    ensures pool.Valid()
    ensures pool.State() == Statuses.Destroy(s, old(pool.State()))
  {
    if s.ContainsDescription() {
      pool.DecrementRef(s.index);
    }
  }

  /**
   * `operator=` as written: overwrite the target's fields with the
   * source's and take a reference to the source's slot; the target's old
   * reference is kept.
   */
  method Assign(target: Status, other: Status, pool: StatusHandler) returns (r: Status)
    requires pool.Valid() && Live(other, pool.State())
    modifies pool
    ensures (r, pool.State()) == Statuses.Assign(target, other, old(pool.State()))
    ensures old(Copyable(other, pool.State())) ==> pool.Valid()
    ensures pool.maxValReach == old(pool.maxValReach)
  {
    r := other;
    if r.ContainsDescription() {
      pool.IncrementRef(r.index);
    }
  }

  /**
   * The assignment the source intends: take a reference to the source's
   * slot, then release the target's previous one.
   */
  method AssignReleasing(target: Status, other: Status, pool: StatusHandler) returns (r: Status)
    requires pool.Valid() && Live(target, pool.State()) && Live(other, pool.State())
    requires Copyable(other, pool.State())
    modifies pool
    ensures pool.Valid()
    ensures (r, pool.State()) == Ownership.AssignReleasing(target, other, old(pool.State()))
  {
    r := Copy(other, pool);
    Destroy(target, pool);
  }

  /** `clearDescription()`. */
  method ClearDescription(s: Status, pool: StatusHandler) returns (r: Status)
    requires pool.Valid() && Live(s, pool.State())
    modifies pool
    ensures pool.Valid()
    ensures (r, pool.State()) == Statuses.ClearDescription(s, old(pool.State()))
  {
    if s.ContainsDescription() {
      pool.DecrementRef(s.index);
    }
    r := s.(index := INV_INDEX);
  }

  /** `operator+=`. */
  method MergeInto(s: Status, other: Status, pool: StatusHandler) returns (r: Status)
    requires pool.Valid() && Fits(pool.State()) && Live(s, pool.State()) && Live(other, pool.State())
    requires other.ContainsDescription() && !s.ContainsDescription() ==> pool.indices != []
    modifies pool
    ensures pool.Valid()
    ensures (r, pool.State()) == Merge(s, other, old(pool.State()))
  {
    r := s;
    if other.ContainsDescription() {
      var text := GetDescriptionStd(other, pool);
      r := AppendDescription(r, pool, text);
    }
    if other.severity != r.severity {
      var minSevNotZero :=
        if r.severity == Undefined then other.severity
        else if other.severity == Undefined then r.severity
        else if SeverityValue(other.severity) < SeverityValue(r.severity) then other.severity
        else r.severity;
      r := r.(severity := minSevNotZero);
    }
    if other.code != r.code {
      r := r.(code := InternalError);
    }
  }

  /**
   * A client: a description shared by two copies survives the destruction
   * of the first, and the slot returns to the free stack with the last.
   */
  method SharedDescriptionClient()
  {
    var pool := new StatusHandler(2);
    InitialIsValid(2);
    var a := NewWithText(InvalidArgs, Normal, "a", pool);
    assert a.index == 1 && pool.elements[1] == Element("a", 1);
    var b := Copy(a, pool);
    assert pool.elements[1].refCounter == 2;
    Destroy(a, pool);
    var text := GetDescription(b, pool);
    assert text == "a";
    Destroy(b, pool);
    assert pool.indices == [0, 1] && pool.elements[1] == EmptySlot;
  }
}
