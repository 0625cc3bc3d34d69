/**
 Whole runs of the ca command on one table, without assuming that its certificates and its clock are
 in order: exactly which runs leave a table that loads again, and exactly which leave the serial
 counter above every row.
 */
module CaRuns {
  import opened Options
  import opened Serials
  import opened RevocationInfo
  import opened CaTable

  // ----- Which runs load again -----

  /** What an operation must meet, on the table it finds, for the table to load again after it. */
  predicate KeepsLoading(t: Table, op: Op, lib: Library) {
    match op
    case IssueOp(cert) => CanBeAdded(t, cert) ==> ValidTime(cert.expiry, lib)
    case RevokeOp(cert, arg, now) =>
      && (CanBeAdded(t, cert) ==> ValidTime(cert.expiry, lib))
      && (arg.Some? && Usable(arg.value, lib) && (CanBeAdded(t, cert) || CanBeRevoked(t, cert)) ==> lib.utcTime(now))
    case UpdateOp(_) => true
    case ReloadOp => true
  }

  predicate AlwaysKeepsLoading(t: Table, ops: seq<Op>, lib: Library)
    decreases |ops|
  {
    ops != [] ==> KeepsLoading(t, ops[0], lib) && AlwaysKeepsLoading(Apply(t, ops[0], lib), ops[1..], lib)
  }

  /** Neither form of time contains a comma. */
  predicate ClockIsTime(op: Op) {
    op.RevokeOp? ==> ',' !in op.now
  }

  /** A row that no later operation can mend. */
  predicate Lost(row: Row, lib: Library) {
    !ValidTime(row.expiry, lib) || (row.kind == 'R' && Unpacked(RevText(row), lib).None?)
  }

  ghost predicate SomeLost(t: Table, lib: Library) {
    exists i | 0 <= i < |t.rows| :: Lost(t.rows[i], lib)
  }

  /** All that makes a table good but for its rows' dates; every operation keeps it. */
  ghost predicate Shaped(t: Table) {
    && Indexed(t) && DistinctSerials(t.rows) && (t.unique ==> DistinctValidNames(t.rows))
    && forall i | 0 <= i < |t.rows| ::
         WellFormed(t.rows[i].serial) && (t.rows[i].kind != 'R' ==> RevText(t.rows[i]) == "")
  }

  lemma GoodExactlyWhen(t: Table, lib: Library)
    ensures Good(t, lib) <==> Shaped(t) && !SomeLost(t, lib)
  {
  }

  lemma InsertKeepsShape(t: Table, row: Row)
    requires Shaped(t) && Insert(t, row).Some?
    requires WellFormed(row.serial) && row.kind == 'V' && RevText(row) == ""
    ensures Shaped(Insert(t, row).value)
  {
    InsertKeepsIndexes(t, row);
    if t.unique {
      IndexedNamesAreDistinct(Insert(t, row).value);
    }
  }

  lemma RevokedRowKeepsShape(t: Table, i: nat, name: string, arg: Option<Revocation>, now: string, lib: Library)
    requires Shaped(t) && i < |t.rows|
    ensures Shaped(RevokedRow(t, i, name, arg, now, lib).table)
  {
    var u := RevokedRow(t, i, name, arg, now, lib).table;
    assert forall k | 0 <= k < |t.rows| && k != i :: u.rows[k] == t.rows[k];
    assert Indexed(u);
    if t.unique {
      IndexedNamesAreDistinct(u);
    }
  }

  lemma ApplyKeepsShape(t: Table, op: Op, lib: Library)
    requires Shaped(t)
    ensures Shaped(Apply(t, op, lib))
  {
    match op
    case IssueOp(cert) =>
      if Issued(t, cert).ok {
        InsertKeepsShape(t, Row('V', cert.expiry, Some(""), Hex(cert.serial), cert.name));
      }
    case RevokeOp(cert, arg, now) => RevokeKeepsShape(t, cert, arg, now, lib);
    case UpdateOp(now) => UpdateKeepsShape(t, now);
    case ReloadOp => ReloadKeepsShape(t);
  }

  lemma RevokeKeepsShape(t: Table, cert: Certificate, arg: Option<Revocation>, now: string, lib: Library)
    requires Shaped(t)
    ensures Shaped(RevokedCert(t, cert, arg, now, lib).table)
  {
    match FindSerial(t.rows, Hex(cert.serial), 0)
    case Some(i) => RevokedRowKeepsShape(t, i, cert.name, arg, now, lib);
    case None =>
      var row := Row('V', cert.expiry, None, Hex(cert.serial), cert.name);
      if Insert(t, row).Some? {
        InsertKeepsShape(t, row);
        RevokedRowKeepsShape(Insert(t, row).value, |t.rows|, cert.name, arg, now, lib);
      }
  }

  lemma UpdateKeepsShape(t: Table, now: string)
    requires Shaped(t)
    ensures Shaped(t.(rows := Updated(t.rows, now)))
  {
    var updated := t.(rows := Updated(t.rows, now));
    assert Indexed(updated);
    if t.unique {
      IndexedNamesAreDistinct(updated);
    }
  }

  lemma ReloadKeepsShape(t: Table)
    requires Shaped(t)
    ensures Shaped(Reloaded(t))
  {
    assert forall i | 0 <= i < |t.rows| :: RevText(Reloaded(t).rows[i]) == RevText(t.rows[i]);
  }

  lemma LostStaysLost(t: Table, u: Table, lib: Library)
    requires Evolves(t, u) && SomeLost(t, lib)
    ensures SomeLost(u, lib)
  {
    var i :| 0 <= i < |t.rows| && Lost(t.rows[i], lib);
    assert Lost(u.rows[i], lib);
  }

  lemma ApplyLoadsExactlyWhen(t: Table, op: Op, lib: Library)
    requires Good(t, lib) && ClockIsTime(op)
    ensures Good(Apply(t, op, lib), lib) <==> KeepsLoading(t, op, lib)
  {
    match op
    case IssueOp(cert) => IssueLoads(t, cert, lib);
    case RevokeOp(cert, arg, now) => RevokeLoads(t, cert, arg, now, lib);
    case UpdateOp(now) => UpdateLoads(t, now, lib);
    case ReloadOp => ReloadLoads(t, lib);
  }

  /**
   From a table that loads, a run leaves one that loads again exactly when every operation, on the
   table it found, added no malformed expiry date and recorded no revocation at a time that is no
   UTCTime; a table that has once failed the check never passes it again.
   */
  lemma {:induction false} RunLoadsExactlyWhen(t: Table, ops: seq<Op>, lib: Library)
    requires Good(t, lib) && forall i | 0 <= i < |ops| :: ClockIsTime(ops[i])
    ensures Good(Run(t, ops, lib), lib) <==> AlwaysKeepsLoading(t, ops, lib)
    decreases |ops|
  {
    if ops != [] {
      var next := Apply(t, ops[0], lib);
      ApplyLoadsExactlyWhen(t, ops[0], lib);
      if Good(next, lib) {
        RunLoadsExactlyWhen(next, ops[1..], lib);
      } else {
        GoodExactlyWhen(t, lib);
        ApplyKeepsShape(t, ops[0], lib);
        GoodExactlyWhen(next, lib);
        RunEvolves(next, ops[1..], lib);
        LostStaysLost(next, Run(next, ops[1..], lib), lib);
        GoodExactlyWhen(Run(next, ops[1..], lib), lib);
      }
    }
  }

  /** With certificates and a clock in order, every table reached loads again. */
  predicate Sound(op: Op, lib: Library) {
    match op
    case IssueOp(cert) => ValidTime(cert.expiry, lib)
    case RevokeOp(cert, _, now) => ValidTime(cert.expiry, lib) && lib.utcTime(now) && ',' !in now
    case UpdateOp(_) => true
    case ReloadOp => true
  }

  lemma {:induction false} SoundRunsKeepLoading(t: Table, ops: seq<Op>, lib: Library)
    requires forall i | 0 <= i < |ops| :: Sound(ops[i], lib)
    ensures AlwaysKeepsLoading(t, ops, lib)
    decreases |ops|
  {
    if ops != [] {
      SoundRunsKeepLoading(Apply(t, ops[0], lib), ops[1..], lib);
    }
  }

  lemma RunLoads(t: Table, ops: seq<Op>, lib: Library)
    requires Good(t, lib) && forall i | 0 <= i < |ops| :: Sound(ops[i], lib)
    ensures Good(Run(t, ops, lib), lib)
  {
    SoundRunsKeepLoading(t, ops, lib);
    RunLoadsExactlyWhen(t, ops, lib);
  }

  /** Whatever the certificates and the clock, serials stay distinct and valid subjects unique. */
  lemma {:induction false} RunKeepsShape(t: Table, ops: seq<Op>, lib: Library)
    requires Shaped(t)
    ensures Shaped(Run(t, ops, lib))
    decreases |ops|
  {
    if ops != [] {
      ApplyKeepsShape(t, ops[0], lib);
      RunKeepsShape(Apply(t, ops[0], lib), ops[1..], lib);
    }
  }

  // ----- Which runs keep the counter above every row -----

  /** What is issued takes its number from the counter. */
  function Numbered(op: Op, next: int): Op {
    match op
    case IssueOp(cert) => IssueOp(cert.(serial := next))
    case _ => op
  }

  /** An operation on the table and the counter. */
  function Counted(t: Table, next: int, op: Op, lib: Library): (Table, int) {
    var issued := op.IssueOp? && Issued(t, op.cert.(serial := next)).ok;
    (Apply(t, Numbered(op, next), lib), if issued then next + 1 else next)
  }

  function CountedRun(t: Table, next: int, ops: seq<Op>, lib: Library): (Table, int)
    decreases |ops|
  {
    if ops == [] then (t, next)
    else
      var (u, after) := Counted(t, next, ops[0], lib);
      CountedRun(u, after, ops[1..], lib)
  }

  /** Revoking adds no certificate from elsewhere at or above the counter. */
  predicate StaysBelow(t: Table, next: int, op: Op) {
    op.RevokeOp? && CanBeAdded(t, op.cert) ==> op.cert.serial < next
  }

  predicate AlwaysStaysBelow(t: Table, next: int, ops: seq<Op>, lib: Library)
    decreases |ops|
  {
    ops != [] ==>
      var (u, after) := Counted(t, next, ops[0], lib);
      StaysBelow(t, next, ops[0]) && AlwaysStaysBelow(u, after, ops[1..], lib)
  }

  /** A row whose number, printed as the counter would print it, the counter has not passed. */
  predicate IsAhead(row: Row, next: int) {
    WellFormed(row.serial) && row.serial == Hex(Value(row.serial)) && Value(row.serial) >= next
  }

  ghost predicate Ahead(rows: seq<Row>, next: int) {
    exists i | 0 <= i < |rows| :: IsAhead(rows[i], next)
  }

  lemma RevokedRows(t: Table, cert: Certificate, arg: Option<Revocation>, now: string, lib: Library)
    requires DistinctSerials(t.rows)
    ensures var u := RevokedCert(t, cert, arg, now, lib).table;
            && |u.rows| == |t.rows| + (if CanBeAdded(t, cert) then 1 else 0)
            && (forall i | 0 <= i < |t.rows| :: u.rows[i].serial == t.rows[i].serial)
            && (CanBeAdded(t, cert) ==> u.rows[|t.rows|].serial == Hex(cert.serial))
  {
    KnownRow(t, cert);
  }

  lemma OneMoreBelow(rows: seq<Row>, more: seq<Row>, serial: int, next: int)
    requires AllBelow(rows, next) && |more| == |rows| + 1 && more[|rows|].serial == Hex(serial)
    requires forall i | 0 <= i < |rows| :: more[i].serial == rows[i].serial
    ensures AllBelow(more, next) <==> serial < next
    ensures serial >= next ==> Ahead(more, next)
  {
    HexValue(serial);
    assert IsAhead(more[|rows|], next) <==> serial >= next;
  }

  /** Revoking keeps every row below the counter exactly when it adds none at or above it. */
  lemma RevokeStaysBelow(t: Table, cert: Certificate, arg: Option<Revocation>, now: string, next: int, lib: Library)
    requires DistinctSerials(t.rows) && AllBelow(t.rows, next)
    ensures var u := RevokedCert(t, cert, arg, now, lib).table;
            && (AllBelow(u.rows, next) <==> (CanBeAdded(t, cert) ==> cert.serial < next))
            && (CanBeAdded(t, cert) && cert.serial >= next ==> Ahead(u.rows, next))
  {
    RevokedRows(t, cert, arg, now, lib);
    if CanBeAdded(t, cert) {
      OneMoreBelow(t.rows, RevokedCert(t, cert, arg, now, lib).table.rows, cert.serial, next);
    }
  }

  lemma CountedStaysBelow(t: Table, next: int, op: Op, lib: Library)
    requires Shaped(t) && AllBelow(t.rows, next)
    ensures var (u, after) := Counted(t, next, op, lib);
            && (AllBelow(u.rows, after) <==> StaysBelow(t, next, op))
            && (!StaysBelow(t, next, op) ==> Ahead(u.rows, after))
  {
    match op
    case IssueOp(cert) => CounterStaysAbove(t, cert.(serial := next));
    case RevokeOp(cert, arg, now) => RevokeStaysBelow(t, cert, arg, now, next, lib);
    case UpdateOp(_) =>
    case ReloadOp =>
  }

  /** When the number is taken, nothing can be issued and the counter stays. */
  lemma CounterIsStuck(t: Table, next: int, cert: Certificate, lib: Library)
    requires !Unknown(t, next)
    ensures Counted(t, next, IssueOp(cert), lib) == (t, next)
  {
  }

  /** So the counter never passes such a row. */
  lemma AheadStays(t: Table, next: int, op: Op, lib: Library)
    requires Ahead(t.rows, next)
    ensures var (u, after) := Counted(t, next, op, lib); Ahead(u.rows, after)
  {
    var i :| 0 <= i < |t.rows| && IsAhead(t.rows[i], next);
    var (u, after) := Counted(t, next, op, lib);
    ApplyEvolves(t, Numbered(op, next), lib);
    if op.IssueOp? && Value(t.rows[i].serial) == next {
      assert SameSerial(t.rows[i].serial, Hex(next));
      CounterIsStuck(t, next, op.cert, lib);
    }
    assert IsAhead(u.rows[i], after);
  }

  lemma {:induction false} AheadForEver(t: Table, next: int, ops: seq<Op>, lib: Library)
    requires Ahead(t.rows, next)
    ensures var (u, after) := CountedRun(t, next, ops, lib); Ahead(u.rows, after)
    decreases |ops|
  {
    if ops != [] {
      AheadStays(t, next, ops[0], lib);
      var (u, after) := Counted(t, next, ops[0], lib);
      AheadForEver(u, after, ops[1..], lib);
    }
  }

  lemma CountedKeepsShape(t: Table, next: int, op: Op, lib: Library)
    requires Shaped(t)
    ensures Shaped(Counted(t, next, op, lib).0)
  {
    ApplyKeepsShape(t, Numbered(op, next), lib);
  }

  /**
   Over any run the counter is above every row at the end exactly when no revocation added a
   certificate at or above the counter of its time.
   */
  lemma {:induction false} RunStaysBelowExactlyWhen(t: Table, next: int, ops: seq<Op>, lib: Library)
    requires Shaped(t) && AllBelow(t.rows, next)
    ensures var (u, after) := CountedRun(t, next, ops, lib);
            AllBelow(u.rows, after) <==> AlwaysStaysBelow(t, next, ops, lib)
    decreases |ops|
  {
    if ops != [] {
      CountedStaysBelow(t, next, ops[0], lib);
      CountedKeepsShape(t, next, ops[0], lib);
      var (u, after) := Counted(t, next, ops[0], lib);
      if StaysBelow(t, next, ops[0]) {
        RunStaysBelowExactlyWhen(u, after, ops[1..], lib);
      } else {
        AheadForEver(u, after, ops[1..], lib);
      }
    }
  }

  /** A certificate from elsewhere, added to the empty table with the number that is next. */
  lemma ForeignSerialBlocksCounter(cert: Certificate, lib: Library)
    ensures var t := Table([], {}, false);
            var u := RevokedCert(t, cert, None, "", lib).table;
            && AllBelow(t.rows, cert.serial) && !AllBelow(u.rows, cert.serial)
            && Counted(u, cert.serial, IssueOp(cert), lib) == (u, cert.serial)
  {
    var t := Table([], {}, false);
    var u := RevokedCert(t, cert, None, "", lib).table;
    RevokedRows(t, cert, None, "", lib);
    RevokeStaysBelow(t, cert, None, "", cert.serial, lib);
    assert SameSerial(u.rows[0].serial, Hex(cert.serial));
    CounterIsStuck(u, cert.serial, cert, lib);
  }
}
