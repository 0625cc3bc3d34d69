/**
 The certificate table of the ca command: what its operations do to the rows, and the two indexes
 TXT_DB keeps.  A row's revocation date is absent (NULL) on a row that do_revoke has just added.
 */
module CaTable {
  import opened Options
  import opened CStrings
  import opened Serials
  import opened RevocationInfo
  import Expiry

  datatype Row = Row(kind: char, expiry: string, revoked: Option<string>, serial: string, name: string)

  /** `named` holds the positions the name index knows; it is empty unless subjects are unique. */
  datatype Table = Table(rows: seq<Row>, named: set<nat>, unique: bool)

  datatype Certificate = Certificate(serial: int, name: string, expiry: string)

  datatype Outcome = Outcome(ok: bool, table: Table)

  // ----- The load-time check -----

  /** The revocation column as it is written to the file. */
  function RevText(row: Row): string {
    if row.revoked.Some? then row.revoked.value else ""
  }

  predicate ValidTime(s: string, lib: Library) {
    lib.utcTime(s) || lib.generalTime(s)
  }

  predicate RowPasses(row: Row, lib: Library) {
    && (row.kind != 'R' ==> RevText(row) == "")
    && (row.kind == 'R' ==> Unpacked(RevText(row), lib).Some?)
    && ValidTime(row.expiry, lib)
    && WellFormed(row.serial)
  }

  ghost predicate DistinctSerials(rows: seq<Row>) {
    forall i, j | 0 <= i < j < |rows| :: !SameSerial(rows[i].serial, rows[j].serial)
  }

  ghost predicate DistinctValidNames(rows: seq<Row>) {
    forall i, j | 0 <= i < j < |rows| && rows[i].kind == 'V' && rows[j].kind == 'V' ::
      rows[i].name != rows[j].name
  }

  /** The check of every row, and the two indexes built without a clash. */
  ghost predicate Loads(t: Table, lib: Library) {
    && (forall i | 0 <= i < |t.rows| :: RowPasses(t.rows[i], lib))
    && DistinctSerials(t.rows)
    && (t.unique ==> DistinctValidNames(t.rows))
  }

  /** The name index knows every valid row, and no two rows it knows share a name. */
  ghost predicate Indexed(t: Table) {
    && (forall i | i in t.named :: i < |t.rows|)
    && (t.unique ==> forall i | 0 <= i < |t.rows| && t.rows[i].kind == 'V' :: i in t.named)
    && (t.unique ==> forall i, j | i in t.named && j in t.named && i != j :: t.rows[i].name != t.rows[j].name)
  }

  ghost predicate Good(t: Table, lib: Library) {
    Loads(t, lib) && Indexed(t)
  }

  /** Rows that pass: valid ones without a revocation date, whichever form of time their date has. */
  lemma RowsThatPass(row: Row, lib: Library)
    requires row.kind == 'V' && row.revoked == Some("") && row.serial == "01"
    requires lib.utcTime(row.expiry) || lib.generalTime(row.expiry)
    ensures RowPasses(row, lib)
  {
  }

  /** And rows that do not, each for one reason. */
  lemma RowsThatFail(good: Row, lib: Library)
    requires RowPasses(good, lib) && good.kind == 'V'
    ensures !RowPasses(good.(revoked := Some("250601120000Z")), lib)
    ensures !RowPasses(good.(kind := 'E', revoked := Some("250601120000Z")), lib)
    ensures !RowPasses(good.(serial := "1"), lib) && !RowPasses(good.(serial := "-"), lib)
    ensures !RowPasses(good.(serial := "0G"), lib) && !RowPasses(good.(serial := ""), lib)
    ensures !lib.utcTime("") ==> !RowPasses(good.(kind := 'R'), lib)
    ensures !lib.utcTime("never") && !lib.generalTime("never") ==> !RowPasses(good.(expiry := "never"), lib)
  {
    assert "-"[1..] == "";
    assert Unsigned("0G")[1] == 'G';
  }

  // ----- TXT_DB -----

  /** A lookup in the serial index. */
  function FindSerial(rows: seq<Row>, serial: string, k: nat): (found: Option<nat>)
    requires k <= |rows|
    ensures found.Some? ==> k <= found.value < |rows| && SameSerial(rows[found.value].serial, serial)
    ensures forall i | k <= i < (if found.Some? then found.value else |rows|) :: !SameSerial(rows[i].serial, serial)
    decreases |rows| - k
  {
    if k == |rows| then None
    else if SameSerial(rows[k].serial, serial) then Some(k)
    else FindSerial(rows, serial, k + 1)
  }

  predicate NameTaken(t: Table, name: string) {
    exists i | 0 <= i < |t.rows| :: i in t.named && t.rows[i].name == name
  }

  /** TXT_DB_insert: refuses a clash in either index; the name index takes valid rows only. */
  function Insert(t: Table, row: Row): Option<Table> {
    if FindSerial(t.rows, row.serial, 0).Some? then None
    else if t.unique && row.kind == 'V' && NameTaken(t, row.name) then None
    else Some(Table(t.rows + [row], if t.unique && row.kind == 'V' then t.named + {|t.rows|} else t.named, t.unique))
  }

  // ----- The operations -----

  /** The end of do_body: the new row, unless the serial or the name is taken. */
  function Issued(t: Table, cert: Certificate): Outcome {
    if FindSerial(t.rows, Hex(cert.serial), 0).Some? then Outcome(false, t)
    else
      match Insert(t, Row('V', cert.expiry, Some(""), Hex(cert.serial), cert.name))
      case None => Outcome(false, t)
      case Some(longer) => Outcome(true, longer)
  }

  /** do_revoke on a row that is there; without an argument (type -1) it only adds rows. */
  function RevokedRow(t: Table, i: nat, name: string, arg: Option<Revocation>, now: string, lib: Library): Outcome
    requires i < |t.rows|
  {
    if t.rows[i].name != name || arg.None? || t.rows[i].kind == 'R' then Outcome(false, t)
    else
      match Printed(arg.value, now, lib)
      case None => Outcome(false, t)
      case Some(text) => Outcome(true, t.(rows := t.rows[i := t.rows[i].(kind := 'R', revoked := Some(text))]))
  }

  function RevokedCert(t: Table, cert: Certificate, arg: Option<Revocation>, now: string, lib: Library): Outcome {
    match FindSerial(t.rows, Hex(cert.serial), 0)
    case Some(i) => RevokedRow(t, i, cert.name, arg, now, lib)
    case None =>
      match Insert(t, Row('V', cert.expiry, None, Hex(cert.serial), cert.name))
      case None => Outcome(false, t)
      case Some(longer) =>
        if arg.None? then Outcome(true, longer)
        else RevokedRow(longer, |t.rows|, cert.name, arg, now, lib)
  }

  function ExpiredRow(row: Row, now: string): Row {
    if row.kind == 'V' && Expiry.MarkedExpired(row.expiry, now) then row.(kind := 'E') else row
  }

  function Updated(rows: seq<Row>, now: string): (r: seq<Row>)
    ensures |r| == |rows|
  {
    seq(|rows|, i requires 0 <= i < |rows| => ExpiredRow(rows[i], now))
  }

  predicate Expires(row: Row, now: string) {
    ExpiredRow(row, now) != row
  }

  ghost function ExpiredBefore(rows: seq<Row>, now: string, n: nat): set<int>
    requires n <= |rows|
  {
    set i | 0 <= i < n && Expires(rows[i], now)
  }

  /** How many rows an update changes. */
  ghost function Changes(rows: seq<Row>, now: string): nat {
    |ExpiredBefore(rows, now, |rows|)|
  }

  /** Writing the table out and loading it again. */
  function Reloaded(t: Table): Table {
    Table(seq(|t.rows|, i requires 0 <= i < |t.rows| => t.rows[i].(revoked := Some(RevText(t.rows[i])))),
          if t.unique then set i | 0 <= i < |t.rows| && t.rows[i].kind == 'V' else {},
          t.unique)
  }

  // ----- The code -----

  class CaDatabase {
    var rows: seq<Row>
    var named: set<nat>
    const unique: bool

    function AsTable(): Table
      reads this
    {
      Table(rows, named, unique)
    }

    constructor (rows: seq<Row>, unique: bool)
      ensures AsTable() == Reloaded(Table(rows, {}, unique))
    {
      this.unique := unique;
      this.rows := seq(|rows|, i requires 0 <= i < |rows| => rows[i].(revoked := Some(RevText(rows[i]))));
      this.named := if unique then set i | 0 <= i < |rows| && rows[i].kind == 'V' else {};
    }

    method TxtDbInsert(row: Row) returns (ok: bool)
      modifies this
      ensures match Insert(old(AsTable()), row)
              case None => !ok && AsTable() == old(AsTable())
              case Some(longer) => ok && AsTable() == longer
    {
      ok := FindSerial(rows, row.serial, 0).None? && !(unique && row.kind == 'V' && NameTaken(AsTable(), row.name));
      if ok {
        if unique && row.kind == 'V' {
          named := named + {|rows|};
        }
        rows := rows + [row];
      }
    }

    /** The checks the ca command makes before it uses the table it has read. */
    method LoadTimeCheck(lib: Library) returns (ok: bool)
      ensures ok <==> forall i | 0 <= i < |rows| :: RowPasses(rows[i], lib)
    {
      for i := 0 to |rows|
        invariant forall k | 0 <= k < i :: RowPasses(rows[k], lib)
      {
        var row := rows[i];
        if row.kind != 'R' && RevText(row) != "" {
          return false;
        }
        if row.kind == 'R' && Unpacked(RevText(row), lib).None? {
          return false;
        }
        if !ValidTime(row.expiry, lib) {
          return false;
        }
        var p := Unsigned(row.serial);
        if |p| % 2 == 1 || |p| < 2 {
          return false;
        }
        for j := 0 to |p|
          invariant forall k | 0 <= k < j :: IsHexDigit(p[k])
        {
          if !IsHexDigit(p[j]) {
            return false;
          }
        }
      }
      return true;
    }

    method Issue(cert: Certificate) returns (ok: bool)
      modifies this
      ensures Outcome(ok, AsTable()) == Issued(old(AsTable()), cert)
    {
      var serial := if cert.serial == 0 then "00" else Hex(cert.serial);
      if FindSerial(rows, serial, 0).Some? {
        return false;
      }
      ok := TxtDbInsert(Row('V', cert.expiry, Some(""), serial, cert.name));
    }

    /**
     do_revoke, with the call to itself after adding a row; `calls` counts those, and the measure
     shows that there is at most one.
     */
    method Revoke(cert: Certificate, arg: Option<Revocation>, now: string, lib: Library)
      returns (ok: bool, ghost calls: nat)
      modifies this
      ensures Outcome(ok, AsTable()) == RevokedCert(old(AsTable()), cert, arg, now, lib)
      ensures calls ==
              if old(FindSerial(rows, Hex(cert.serial), 0)).None? && |rows| > |old(rows)| && arg.Some? then 1 else 0
      decreases if FindSerial(rows, Hex(cert.serial), 0).None? then 1 else 0
    {
      ok, calls := false, 0;
      var serial := if cert.serial == 0 then "00" else Hex(cert.serial);
      var found := FindSerial(rows, serial, 0);
      if found.None? {
        var inserted := TxtDbInsert(Row('V', cert.expiry, None, serial, cert.name));
        if !inserted {
          return;
        }
        FoundAtTheEnd(old(rows), rows[|rows| - 1]);
        if arg.None? {
          ok := true;
        } else {
          ok, calls := Revoke(cert, arg, now, lib);
          calls := 1;
        }
        return;
      }
      ok := RevokeRow(found.value, cert.name, arg, now, lib);
    }

    method RevokeRow(i: nat, name: string, arg: Option<Revocation>, now: string, lib: Library) returns (ok: bool)
      requires i < |rows|
      modifies this`rows
      ensures Outcome(ok, AsTable()) == RevokedRow(old(AsTable()), i, name, arg, now, lib)
      ensures |rows| == |old(rows)|
    {
      var row := rows[i];
      if row.name != name || arg.None? || row.kind == 'R' {
        return false;
      }
      var text := Printed(arg.value, now, lib);
      if text.None? {
        return false;
      }
      rows := rows[i := row.(kind := 'R', revoked := text)];
      return true;
    }

    /** do_updatedb: marks the rows whose expiry date has passed and counts them. */
    method UpdateDb(now: string) returns (cnt: nat)
      modifies this`rows
      ensures rows == Updated(old(rows), now) && cnt == Changes(old(rows), now)
    {
      ghost var was := rows;
      cnt := 0;
      for i := 0 to |rows|
        invariant |rows| == |was| && cnt == |ExpiredBefore(was, now, i)|
        invariant forall k | 0 <= k < |rows| :: rows[k] == if k < i then ExpiredRow(was[k], now) else was[k]
      {
        OneMoreExpired(was, now, i);
        var row := rows[i];
        if row.kind == 'V' {
          var dbY2k, nowY2k := Expiry.Y2k(row.expiry), Expiry.Y2k(now);
          if dbY2k == nowY2k {
            if Compare(row.expiry, now) <= 0 {
              rows := rows[i := row.(kind := 'E')];
              cnt := cnt + 1;
            }
          } else if !dbY2k && nowY2k {
            rows := rows[i := row.(kind := 'E')];
            cnt := cnt + 1;
          }
        }
      }
    }
  }

  lemma OneMoreExpired(rows: seq<Row>, now: string, n: nat)
    requires n < |rows|
    ensures |ExpiredBefore(rows, now, n + 1)| == |ExpiredBefore(rows, now, n)| + if Expires(rows[n], now) then 1 else 0
  {
    var few, more := ExpiredBefore(rows, now, n), ExpiredBefore(rows, now, n + 1);
    assert more == if Expires(rows[n], now) then few + {n} else few;
  }

  lemma FoundAtTheEnd(rows: seq<Row>, row: Row)
    requires FindSerial(rows, row.serial, 0).None?
    ensures FindSerial(rows + [row], row.serial, 0) == Some(|rows|)
  {
    var longer := rows + [row];
    var found := FindSerial(longer, row.serial, 0);
    assert SameSerial(longer[|rows|].serial, row.serial);
    assert forall i | 0 <= i < |rows| :: !SameSerial(longer[i].serial, row.serial);
  }

  // ----- One operation -----

  lemma InsertKeepsIndexes(t: Table, row: Row)
    requires Indexed(t) && DistinctSerials(t.rows) && Insert(t, row).Some?
    ensures var longer := Insert(t, row).value; Indexed(longer) && DistinctSerials(longer.rows)
  {
    var longer := Insert(t, row).value;
    forall i, j | 0 <= i < j < |longer.rows|
      ensures !SameSerial(longer.rows[i].serial, longer.rows[j].serial)
    {
      assert j < |t.rows| ==> longer.rows[j] == t.rows[j];
    }
  }

  lemma IndexedNamesAreDistinct(t: Table)
    requires Indexed(t) && t.unique
    ensures DistinctValidNames(t.rows)
  {
  }

  lemma InsertLoads(t: Table, row: Row, lib: Library)
    requires Good(t, lib) && Insert(t, row).Some?
    ensures Good(Insert(t, row).value, lib) <==> RowPasses(row, lib)
  {
    InsertKeepsIndexes(t, row);
    var longer := Insert(t, row).value;
    assert longer.rows[|t.rows|] == row;
    assert forall i | 0 <= i < |t.rows| :: longer.rows[i] == t.rows[i];
    if longer.unique {
      IndexedNamesAreDistinct(longer);
    }
  }

  predicate Unknown(t: Table, serial: int) {
    forall i | 0 <= i < |t.rows| :: !SameSerial(t.rows[i].serial, Hex(serial))
  }

  /** Neither index objects to a row for the certificate. */
  predicate CanBeAdded(t: Table, cert: Certificate) {
    Unknown(t, cert.serial) && !(t.unique && NameTaken(t, cert.name))
  }

  /** After issuing, the table loads again exactly when a row that can be added has a well-formed date. */
  lemma IssueLoads(t: Table, cert: Certificate, lib: Library)
    requires Good(t, lib)
    ensures Good(Issued(t, cert).table, lib) <==> (CanBeAdded(t, cert) ==> ValidTime(cert.expiry, lib))
  {
    if Issued(t, cert).ok {
      InsertLoads(t, Row('V', cert.expiry, Some(""), Hex(cert.serial), cert.name), lib);
    }
  }

  /** Changing the kind and the revocation date of one row. */
  lemma ReplaceLoads(t: Table, i: nat, row: Row, lib: Library)
    requires Indexed(t) && DistinctSerials(t.rows)
    requires i < |t.rows| && row.serial == t.rows[i].serial && row.name == t.rows[i].name && row.kind == 'R'
    requires forall k | 0 <= k < |t.rows| && k != i :: RowPasses(t.rows[k], lib)
    ensures Good(t.(rows := t.rows[i := row]), lib) <==> RowPasses(row, lib)
  {
    var changed := t.(rows := t.rows[i := row]);
    assert changed.rows[i] == row;
    assert forall k | 0 <= k < |t.rows| && k != i :: changed.rows[k] == t.rows[k];
    assert Indexed(changed);
    if t.unique {
      IndexedNamesAreDistinct(changed);
    }
  }

  lemma RevokedRowLoads(t: Table, i: nat, name: string, arg: Option<Revocation>, now: string, lib: Library)
    requires Indexed(t) && DistinctSerials(t.rows) && ',' !in now
    requires i < |t.rows| && WellFormed(t.rows[i].serial) && (t.unique ==> DistinctValidNames(t.rows))
    requires forall k | 0 <= k < |t.rows| && k != i :: RowPasses(t.rows[k], lib)
    ensures var r := RevokedRow(t, i, name, arg, now, lib);
            Good(r.table, lib) <==>
            if r.ok then ValidTime(t.rows[i].expiry, lib) && lib.utcTime(now) else RowPasses(t.rows[i], lib)
  {
    var r := RevokedRow(t, i, name, arg, now, lib);
    if r.ok {
      UnpackUndoesMake(arg.value, now, lib);
      ReplaceLoads(t, i, r.table.rows[i], lib);
    }
  }

  lemma AddedRowLoads(t: Table, row: Row, name: string, arg: Option<Revocation>, now: string, lib: Library)
    requires Good(t, lib) && ',' !in now && Insert(t, row).Some?
    requires row.kind == 'V' && RevText(row) == "" && WellFormed(row.serial)
    ensures var longer := Insert(t, row).value;
            && (Good(longer, lib) <==> ValidTime(row.expiry, lib))
            && var r := RevokedRow(longer, |t.rows|, name, arg, now, lib);
               Good(r.table, lib) <==> ValidTime(row.expiry, lib) && (r.ok ==> lib.utcTime(now))
  {
    InsertLoads(t, row, lib);
    InsertKeepsIndexes(t, row);
    var longer := Insert(t, row).value;
    if longer.unique {
      IndexedNamesAreDistinct(longer);
    }
    assert forall k | 0 <= k < |t.rows| :: longer.rows[k] == t.rows[k];
    RevokedRowLoads(longer, |t.rows|, name, arg, now, lib);
  }

  /** The certificate is known under its own name and not revoked yet. */
  predicate CanBeRevoked(t: Table, cert: Certificate) {
    exists i | 0 <= i < |t.rows| ::
      SameSerial(t.rows[i].serial, Hex(cert.serial)) && t.rows[i].name == cert.name && t.rows[i].kind != 'R'
  }

  /**
   Revoking succeeds exactly on a certificate that can be added or, with an argument, that can be
   revoked; and the argument has to be usable.
   */
  lemma RevokeSucceedsExactlyWhen(t: Table, cert: Certificate, arg: Option<Revocation>, now: string, lib: Library)
    requires DistinctSerials(t.rows)
    ensures RevokedCert(t, cert, arg, now, lib).ok <==>
            && (CanBeAdded(t, cert) || (arg.Some? && CanBeRevoked(t, cert)))
            && (arg.Some? ==> Usable(arg.value, lib))
  {
    if arg.Some? {
      AcceptedExactlyWhen(arg.value, now, lib);
    }
    KnownRow(t, cert);
  }

  lemma KnownRow(t: Table, cert: Certificate)
    requires DistinctSerials(t.rows)
    ensures match FindSerial(t.rows, Hex(cert.serial), 0)
            case None => Unknown(t, cert.serial) && !CanBeRevoked(t, cert)
            case Some(i) =>
              && !Unknown(t, cert.serial)
              && (CanBeRevoked(t, cert) <==> t.rows[i].name == cert.name && t.rows[i].kind != 'R')
  {
    var found := FindSerial(t.rows, Hex(cert.serial), 0);
    if found.Some? {
      forall k | 0 <= k < |t.rows| && SameSerial(t.rows[k].serial, Hex(cert.serial))
        ensures k == found.value
      {
        assert SameSerial(t.rows[found.value].serial, t.rows[k].serial);
      }
    }
  }

  /**
   After do_revoke the table loads again exactly when a certificate that can be added has a
   well-formed expiry date and, if the revocation goes through, the clock prints a UTCTime.
   */
  lemma RevokeLoads(t: Table, cert: Certificate, arg: Option<Revocation>, now: string, lib: Library)
    requires Good(t, lib) && ',' !in now
    ensures Good(RevokedCert(t, cert, arg, now, lib).table, lib) <==>
            && (CanBeAdded(t, cert) ==> ValidTime(cert.expiry, lib))
            && (arg.Some? && Usable(arg.value, lib) && (CanBeAdded(t, cert) || CanBeRevoked(t, cert)) ==>
                  lib.utcTime(now))
  {
    RevokeSucceedsExactlyWhen(t, cert, arg, now, lib);
    KnownRow(t, cert);
    RevokedLoads(t, cert, arg, now, lib);
  }

  lemma RevokedLoads(t: Table, cert: Certificate, arg: Option<Revocation>, now: string, lib: Library)
    requires Good(t, lib) && ',' !in now
    ensures var r := RevokedCert(t, cert, arg, now, lib);
            Good(r.table, lib) <==>
            && (|r.table.rows| > |t.rows| ==> ValidTime(cert.expiry, lib))
            && (r.ok && arg.Some? ==> lib.utcTime(now))
  {
    match FindSerial(t.rows, Hex(cert.serial), 0)
    case Some(i) =>
      RevokedRowLoads(t, i, cert.name, arg, now, lib);
    case None =>
      var row := Row('V', cert.expiry, None, Hex(cert.serial), cert.name);
      if Insert(t, row).Some? {
        AddedRowLoads(t, row, cert.name, arg, now, lib);
      }
  }

  /** A certificate whose expiry date is not one: revoking adds its row, and the table no longer loads. */
  lemma MalformedDateIsAdded(lib: Library, now: string)
    requires ',' !in now && !ValidTime("never", lib)
    ensures var t := Table([], {}, true);
            var r := RevokedCert(t, Certificate(1, "/CN=a", "never"), Some(Plain), now, lib);
            Good(t, lib) && r.ok && !Good(r.table, lib)
  {
    var t := Table([], {}, true);
    RevokeLoads(t, Certificate(1, "/CN=a", "never"), Some(Plain), now, lib);
  }

  /** So does revoking a certificate in order under a clock that prints GeneralizedTime. */
  lemma LateClockIsRecorded(lib: Library, now: string, expiry: string)
    requires ',' !in now && !lib.utcTime(now) && ValidTime(expiry, lib)
    ensures var t := Table([], {}, true);
            var r := RevokedCert(t, Certificate(1, "/CN=a", expiry), Some(Plain), now, lib);
            Good(t, lib) && r.ok && !Good(r.table, lib)
  {
    var t := Table([], {}, true);
    RevokeLoads(t, Certificate(1, "/CN=a", expiry), Some(Plain), now, lib);
  }

  lemma UpdateLoads(t: Table, now: string, lib: Library)
    requires Good(t, lib)
    ensures Good(t.(rows := Updated(t.rows, now)), lib)
  {
    var updated := t.(rows := Updated(t.rows, now));
    assert Indexed(updated);
    if t.unique {
      IndexedNamesAreDistinct(updated);
    }
  }

  /** A good table comes back from the file as a good table. */
  lemma ReloadLoads(t: Table, lib: Library)
    requires Loads(t, lib)
    ensures Good(Reloaded(t), lib)
  {
    var again := Reloaded(t);
    assert forall i | 0 <= i < |t.rows| :: RevText(again.rows[i]) == RevText(t.rows[i]);
    assert forall i | 0 <= i < |t.rows| :: RowPasses(again.rows[i], lib) <==> RowPasses(t.rows[i], lib);
  }

  // ----- Whole runs -----

  datatype Op =
    | IssueOp(cert: Certificate)
    | RevokeOp(cert: Certificate, arg: Option<Revocation>, now: string)
    | UpdateOp(now: string)
    | ReloadOp

  function Apply(t: Table, op: Op, lib: Library): Table {
    match op
    case IssueOp(cert) => Issued(t, cert).table
    case RevokeOp(cert, arg, now) => RevokedCert(t, cert, arg, now, lib).table
    case UpdateOp(now) => t.(rows := Updated(t.rows, now))
    case ReloadOp => Reloaded(t)
  }

  function Run(t: Table, ops: seq<Op>, lib: Library): Table
    decreases |ops|
  {
    if ops == [] then t else Run(Apply(t, ops[0], lib), ops[1..], lib)
  }

  /** No row is lost or renamed, a revoked row stays as it is, and kinds only move forward. */
  ghost predicate Evolves(t: Table, u: Table) {
    && |t.rows| <= |u.rows| && t.unique == u.unique
    && forall i | 0 <= i < |t.rows| ::
         && u.rows[i].serial == t.rows[i].serial
         && u.rows[i].name == t.rows[i].name
         && u.rows[i].expiry == t.rows[i].expiry
         && (u.rows[i].kind != t.rows[i].kind ==>
               u.rows[i].kind == 'R' || (t.rows[i].kind == 'V' && u.rows[i].kind == 'E'))
         && (t.rows[i].kind == 'R' ==> u.rows[i].kind == 'R' && RevText(u.rows[i]) == RevText(t.rows[i]))
  }

  lemma InsertEvolves(t: Table, row: Row)
    ensures Insert(t, row).Some? ==> Evolves(t, Insert(t, row).value)
  {
  }

  lemma RevokedRowEvolves(t: Table, i: nat, name: string, arg: Option<Revocation>, now: string, lib: Library)
    requires i < |t.rows|
    ensures Evolves(t, RevokedRow(t, i, name, arg, now, lib).table)
  {
  }

  lemma ApplyEvolves(t: Table, op: Op, lib: Library)
    ensures Evolves(t, Apply(t, op, lib))
  {
    match op
    case IssueOp(cert) =>
      InsertEvolves(t, Row('V', cert.expiry, Some(""), Hex(cert.serial), cert.name));
    case RevokeOp(cert, arg, now) =>
      var found := FindSerial(t.rows, Hex(cert.serial), 0);
      if found.Some? {
        RevokedRowEvolves(t, found.value, cert.name, arg, now, lib);
      } else {
        var row := Row('V', cert.expiry, None, Hex(cert.serial), cert.name);
        InsertEvolves(t, row);
        var longer := Insert(t, row);
        if longer.Some? {
          RevokedRowEvolves(longer.value, |t.rows|, cert.name, arg, now, lib);
          EvolvesTwice(t, longer.value, RevokedRow(longer.value, |t.rows|, cert.name, arg, now, lib).table);
        }
      }
    case UpdateOp(now) =>
    case ReloadOp =>
  }

  lemma EvolvesTwice(t: Table, u: Table, v: Table)
    requires Evolves(t, u) && Evolves(u, v)
    ensures Evolves(t, v)
  {
  }

  /** Whatever is issued, revoked, expired and reloaded, rows only move forward. */
  lemma {:induction false} RunEvolves(t: Table, ops: seq<Op>, lib: Library)
    ensures Evolves(t, Run(t, ops, lib))
    decreases |ops|
  {
    if ops != [] {
      var next := Apply(t, ops[0], lib);
      ApplyEvolves(t, ops[0], lib);
      RunEvolves(next, ops[1..], lib);
      EvolvesTwice(t, next, Run(next, ops[1..], lib));
    }
  }

  // ----- Issuing -----

  /**
   A certificate is issued exactly when neither its serial nor, where subjects are unique, its name
   is known; its serial then leads to a valid row with its name and date, behind all older rows.
   */
  lemma IssueRecords(t: Table, cert: Certificate)
    ensures var r := Issued(t, cert);
            && (r.ok <==> CanBeAdded(t, cert))
            && (!r.ok ==> r.table == t)
            && (r.ok ==> && t.rows <= r.table.rows
                         && FindSerial(r.table.rows, Hex(cert.serial), 0) == Some(|t.rows|)
                         && var row := r.table.rows[|t.rows|];
                            row.kind == 'V' && row.name == cert.name && row.expiry == cert.expiry && RevText(row) == "")
  {
    if FindSerial(t.rows, Hex(cert.serial), 0).None? {
      FoundAtTheEnd(t.rows, Row('V', cert.expiry, Some(""), Hex(cert.serial), cert.name));
    }
  }

  /** A certificate that revoking adds has its own row, behind all older ones. */
  lemma RevokeAdds(t: Table, cert: Certificate, arg: Option<Revocation>, now: string, lib: Library)
    requires CanBeAdded(t, cert)
    ensures var u := RevokedCert(t, cert, arg, now, lib).table;
            && |u.rows| == |t.rows| + 1 && FindSerial(u.rows, Hex(cert.serial), 0) == Some(|t.rows|)
            && u.rows[|t.rows|].name == cert.name && u.rows[|t.rows|].expiry == cert.expiry
            && (arg.None? ==> u.rows[|t.rows|].kind == 'V' && RevText(u.rows[|t.rows|]) == "")
  {
    var row := Row('V', cert.expiry, None, Hex(cert.serial), cert.name);
    var longer := Insert(t, row).value;
    FoundAtTheEnd(t.rows, row);
    if arg.Some? {
      var r := RevokedRow(longer, |t.rows|, cert.name, arg, now, lib);
      FoundAgain(longer.rows, |t.rows|, r.table.rows[|t.rows|]);
      assert longer.rows[|t.rows| := longer.rows[|t.rows|]] == longer.rows;
    }
  }

  // ----- Expiring, revoking and counting -----

  /** On UTCTime values an update marks exactly the valid rows whose full date is not after now. */
  lemma UpdateMarksExactly(rows: seq<Row>, now: string, i: nat)
    requires Expiry.IsUtcTime(now) && i < |rows| && (rows[i].kind == 'V' ==> Expiry.IsUtcTime(rows[i].expiry))
    ensures Updated(rows, now)[i] == if Overdue(rows[i], now) then rows[i].(kind := 'E') else rows[i]
  {
    if rows[i].kind == 'V' {
      Expiry.UtcTimesAreCompared(rows[i].expiry, now);
    }
  }

  predicate Overdue(row: Row, now: string)
    requires Expiry.IsUtcTime(now) && (row.kind == 'V' ==> Expiry.IsUtcTime(row.expiry))
  {
    row.kind == 'V' && Expiry.NotAfter(row.expiry, now)
  }

  /** The certificate's serial leads to a revoked row of its name that carries what was meant. */
  ghost predicate OnRecord(u: Table, cert: Certificate, arg: Revocation, now: string, lib: Library) {
    var i := FindSerial(u.rows, Hex(cert.serial), 0);
    && i.Some? && u.rows[i.value].kind == 'R' && u.rows[i.value].name == cert.name
    && Unpacked(RevText(u.rows[i.value]), lib) == Some(Intended(arg, now, lib))
  }

  lemma RevokedRowRecords(t: Table, i: nat, cert: Certificate, arg: Revocation, now: string, lib: Library)
    requires ',' !in now && lib.utcTime(now) && FindSerial(t.rows, Hex(cert.serial), 0) == Some(i)
    requires RevokedRow(t, i, cert.name, Some(arg), now, lib).ok
    ensures OnRecord(RevokedRow(t, i, cert.name, Some(arg), now, lib).table, cert, arg, now, lib)
  {
    UnpackUndoesMake(arg, now, lib);
    FoundAgain(t.rows, i, RevokedRow(t, i, cert.name, Some(arg), now, lib).table.rows[i]);
  }

  /** A successful revocation is on record under the certificate's serial. */
  lemma RevokeRecords(t: Table, cert: Certificate, arg: Revocation, now: string, lib: Library)
    requires ',' !in now && lib.utcTime(now) && RevokedCert(t, cert, Some(arg), now, lib).ok
    ensures OnRecord(RevokedCert(t, cert, Some(arg), now, lib).table, cert, arg, now, lib)
  {
    match FindSerial(t.rows, Hex(cert.serial), 0)
    case Some(i) =>
      RevokedRowRecords(t, i, cert, arg, now, lib);
    case None =>
      var row := Row('V', cert.expiry, None, Hex(cert.serial), cert.name);
      FoundAtTheEnd(t.rows, row);
      RevokedRowRecords(Insert(t, row).value, |t.rows|, cert, arg, now, lib);
  }

  /** Revoking adds at most one row, changes none of another serial, and none at all if it fails. */
  lemma RevokeTouchesOne(t: Table, cert: Certificate, arg: Option<Revocation>, now: string, lib: Library)
    ensures var r := RevokedCert(t, cert, arg, now, lib);
            && |t.rows| <= |r.table.rows| <= |t.rows| + 1
            && (|r.table.rows| > |t.rows| ==> FindSerial(t.rows, Hex(cert.serial), 0).None?)
            && forall i | 0 <= i < |t.rows| ::
                 !r.ok || !SameSerial(t.rows[i].serial, Hex(cert.serial)) ==> r.table.rows[i] == t.rows[i]
  {
  }

  /** What is on record cannot be revoked again, whatever the reason given. */
  lemma RevokedOnce(u: Table, cert: Certificate, arg: Revocation, now: string, lib: Library,
                    again: Option<Revocation>, later: string)
    requires OnRecord(u, cert, arg, now, lib)
    ensures RevokedCert(u, cert, again, later, lib) == Outcome(false, u)
  {
  }

  lemma FoundAgain(rows: seq<Row>, i: nat, row: Row)
    requires i < |rows| && row.serial == rows[i].serial
    ensures forall serial | FindSerial(rows, serial, 0) == Some(i) :: FindSerial(rows[i := row], serial, 0) == Some(i)
  {
    forall serial | FindSerial(rows, serial, 0) == Some(i)
      ensures FindSerial(rows[i := row], serial, 0) == Some(i)
    {
      var changed := rows[i := row];
      assert SameSerial(changed[i].serial, serial);
      assert forall k | 0 <= k < i :: changed[k] == rows[k];
    }
  }

  ghost predicate AllBelow(rows: seq<Row>, n: int) {
    forall i | 0 <= i < |rows| :: WellFormed(rows[i].serial) && Value(rows[i].serial) < n
  }

  /**
   With the counter above every row, issuing is never refused for its serial, and the counter plus
   one is above every row again.
   */
  lemma CounterStaysAbove(t: Table, cert: Certificate)
    requires AllBelow(t.rows, cert.serial)
    ensures FindSerial(t.rows, Hex(cert.serial), 0).None?
    ensures Issued(t, cert).ok <==> !(t.unique && NameTaken(t, cert.name))
    ensures AllBelow(Issued(t, cert).table.rows, cert.serial + 1)
  {
    HexValue(cert.serial);
    var found := FindSerial(t.rows, Hex(cert.serial), 0);
    if found.Some? {
      SameSerialSameValue(t.rows[found.value].serial, Hex(cert.serial));
      assert false;
    }
  }
}
