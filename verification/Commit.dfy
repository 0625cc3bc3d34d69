/**
 Issuing a batch of certificates and putting the new serial number and the new index in place: the
 serial file is rotated before the index, so that a number is never handed out twice.
 */
module Commit {
  import opened Options
  import opened Serials
  import opened CaTable
  import opened Rotation

  datatype Content = Number(number: int) | Index(rows: seq<Row>) | Attributes(unique: bool)

  /**
   A request is turned away (its signature does not match, or the operator says no), ends the command
   (it cannot be read, or the policy refuses it), or is signed.
   */
  datatype Request = TurnedAway | Fatal | Signed(name: string, expiry: string)

  /** The table and the next serial number after a batch; None when the command gives up. */
  function IssuedAll(t: Table, next: int, requests: seq<Request>, i: nat): Option<(Table, int)>
    requires i <= |requests|
    decreases |requests| - i
  {
    if i == |requests| then Some((t, next))
    else
      match requests[i]
      case TurnedAway => IssuedAll(t, next, requests, i + 1)
      case Fatal => None
      case Signed(name, expiry) =>
        var r := Issued(t, Certificate(next, name, expiry));
        if r.ok then IssuedAll(r.table, next + 1, requests, i + 1) else None
  }

  // ----- What a batch does to the table -----

  datatype Wanted = Wanted(name: string, expiry: string)

  /** What the requests that were signed asked for, from position i on. */
  function SignedOf(requests: seq<Request>, i: nat): seq<Wanted>
    requires i <= |requests|
    decreases |requests| - i
  {
    if i == |requests| then []
    else if requests[i].Signed? then [Wanted(requests[i].name, requests[i].expiry)] + SignedOf(requests, i + 1)
    else SignedOf(requests, i + 1)
  }

  predicate IsRowFor(row: Row, wanted: Wanted, serial: int) {
    && row.kind == 'V' && row.name == wanted.name && row.expiry == wanted.expiry
    && row.serial == Hex(serial) && RevText(row) == ""
  }

  /** The older rows, and behind them one for each of the signed requests, numbered in their order. */
  predicate HoldsBatch(rows: seq<Row>, older: seq<Row>, next: int, signed: seq<Wanted>) {
    && |rows| == |older| + |signed| && older <= rows
    && AreRowsFor(rows[|older|..], next, signed)
  }

  predicate AreRowsFor(rows: seq<Row>, next: int, signed: seq<Wanted>) {
    |rows| == |signed| && forall k | 0 <= k < |signed| :: IsRowFor(rows[k], signed[k], next + k)
  }

  function NewRow(wanted: Wanted, serial: int): Row {
    Row('V', wanted.expiry, Some(""), Hex(serial), wanted.name)
  }

  /** Something for each of the requests and its number. */
  function Numbered<R>(make: (Wanted, int) -> R, next: int, signed: seq<Wanted>): (made: seq<R>)
    ensures |made| == |signed|
    decreases |signed|
  {
    if signed == [] then [] else [make(signed[0], next)] + Numbered(make, next + 1, signed[1..])
  }

  lemma {:induction false} NumberedAt<R>(make: (Wanted, int) -> R, next: int, signed: seq<Wanted>, k: nat)
    requires k < |signed|
    ensures Numbered(make, next, signed)[k] == make(signed[k], next + k)
    decreases k
  {
    if k > 0 {
      NumberedAt(make, next + 1, signed[1..], k - 1);
    }
  }

  lemma OneMoreNumbered<R>(make: (Wanted, int) -> R, next: int, first: Wanted, rest: seq<Wanted>, older: seq<R>)
    ensures Numbered(make, next, [first] + rest) == [make(first, next)] + Numbered(make, next + 1, rest)
    ensures older + Numbered(make, next, [first] + rest) ==
            (older + [make(first, next)]) + Numbered(make, next + 1, rest)
  {
    assert ([first] + rest)[1..] == rest;
  }

  function NewRows(next: int, signed: seq<Wanted>): seq<Row> {
    Numbered(NewRow, next, signed)
  }

  lemma SignedOneMore(requests: seq<Request>, i: nat, first: Wanted, next: int, older: seq<Row>)
    requires i < |requests| && requests[i] == Signed(first.name, first.expiry)
    ensures |SignedOf(requests, i)| == |SignedOf(requests, i + 1)| + 1
    ensures older + NewRows(next, SignedOf(requests, i)) ==
            (older + [NewRow(first, next)]) + NewRows(next + 1, SignedOf(requests, i + 1))
  {
    OneMoreNumbered(NewRow, next, first, SignedOf(requests, i + 1), older);
  }

  /** What a batch adds from position i on. */
  predicate AddsRows(t: Table, next: int, requests: seq<Request>, i: nat)
    requires i <= |requests|
  {
    var r := IssuedAll(t, next, requests, i);
    r.Some? ==>
      && r.value.0.rows == t.rows + NewRows(next, SignedOf(requests, i))
      && r.value.1 == next + |SignedOf(requests, i)| && r.value.0.unique == t.unique
  }

  lemma OneMoreAdded(t: Table, u: Table, first: Wanted, next: int, requests: seq<Request>, i: nat)
    requires i < |requests| && requests[i] == Signed(first.name, first.expiry)
    requires u.rows == t.rows + [NewRow(first, next)] && u.unique == t.unique
    requires IssuedAll(t, next, requests, i) == IssuedAll(u, next + 1, requests, i + 1)
    requires AddsRows(u, next + 1, requests, i + 1)
    ensures AddsRows(t, next, requests, i)
  {
    SignedOneMore(requests, i, first, next, t.rows);
  }

  lemma SignedAddsRows(t: Table, cert: Certificate, requests: seq<Request>, i: nat)
    requires i < |requests| && requests[i] == Signed(cert.name, cert.expiry) && Issued(t, cert).ok
    requires AddsRows(Issued(t, cert).table, cert.serial + 1, requests, i + 1)
    ensures AddsRows(t, cert.serial, requests, i)
  {
    OneMoreRow(t, cert);
    OneMoreAdded(t, Issued(t, cert).table, Wanted(cert.name, cert.expiry), cert.serial, requests, i);
  }

  lemma {:induction false} BatchAddsRows(t: Table, next: int, requests: seq<Request>, i: nat)
    requires i <= |requests|
    ensures AddsRows(t, next, requests, i)
    decreases |requests| - i
  {
    if i < |requests| {
      match requests[i]
      case Fatal =>
      case TurnedAway =>
        BatchAddsRows(t, next, requests, i + 1);
      case Signed(name, expiry) =>
        var cert := Certificate(next, name, expiry);
        if Issued(t, cert).ok {
          BatchAddsRows(Issued(t, cert).table, next + 1, requests, i + 1);
          SignedAddsRows(t, cert, requests, i);
        }
    }
  }

  lemma NewRowFits(wanted: Wanted, serial: int)
    ensures IsRowFor(NewRow(wanted, serial), wanted, serial)
  {
  }

  lemma NewRowIsRow(next: int, signed: seq<Wanted>, k: nat)
    requires k < |signed|
    ensures IsRowFor(NewRows(next, signed)[k], signed[k], next + k)
  {
    NumberedAt(NewRow, next, signed, k);
    NewRowFits(signed[k], next + k);
  }

  lemma NewRowsAreRows(next: int, signed: seq<Wanted>)
    ensures AreRowsFor(NewRows(next, signed), next, signed)
  {
    var rows := NewRows(next, signed);
    forall k | 0 <= k < |signed| ensures IsRowFor(rows[k], signed[k], next + k) {
      NewRowIsRow(next, signed, k);
    }
  }

  lemma RowsHoldBatch(older: seq<Row>, added: seq<Row>, next: int, signed: seq<Wanted>)
    requires AreRowsFor(added, next, signed)
    ensures HoldsBatch(older + added, older, next, signed)
  {
    assert (older + added)[|older|..] == added;
  }

  /** A batch that goes through adds just these rows, and moves the number on by as many. */
  lemma BatchIsHeld(t: Table, next: int, requests: seq<Request>)
    ensures var r := IssuedAll(t, next, requests, 0);
            r.Some? ==>
              && HoldsBatch(r.value.0.rows, t.rows, next, SignedOf(requests, 0))
              && r.value.1 == next + |SignedOf(requests, 0)| && r.value.0.unique == t.unique
  {
    BatchAddsRows(t, next, requests, 0);
    var signed := SignedOf(requests, 0);
    NewRowsAreRows(next, signed);
    RowsHoldBatch(t.rows, NewRows(next, signed), next, signed);
  }

  /** Request j ends the command: by itself, or because its name is taken or asked for before. */
  predicate EndsBatch(t: Table, requests: seq<Request>, i: nat, j: nat)
    requires i <= j < |requests|
  {
    || requests[j].Fatal?
    || (t.unique && requests[j].Signed? && (NameTaken(t, requests[j].name) || AskedBefore(requests, i, j)))
  }

  predicate AskedBefore(requests: seq<Request>, i: nat, j: nat)
    requires i <= j < |requests| && requests[j].Signed?
  {
    exists h | i <= h < j :: requests[h].Signed? && requests[h].name == requests[j].name
  }

  ghost predicate SomeEnds(t: Table, requests: seq<Request>, i: nat)
    requires i <= |requests|
  {
    exists j | i <= j < |requests| :: EndsBatch(t, requests, i, j)
  }

  ghost predicate FailsAtEnd(t: Table, next: int, requests: seq<Request>, i: nat)
    requires i <= |requests|
  {
    IssuedAll(t, next, requests, i).None? <==> SomeEnds(t, requests, i)
  }

  ghost predicate Numbering(t: Table, next: int) {
    AllBelow(t.rows, next) && forall k | k in t.named :: k < |t.rows|
  }

  /** With the number above every row, the command gives up exactly at such a request. */
  lemma {:induction false} BatchFailsExactlyWhen(t: Table, next: int, requests: seq<Request>, i: nat)
    requires i <= |requests| && Numbering(t, next)
    ensures FailsAtEnd(t, next, requests, i)
    decreases |requests| - i
  {
    if i < |requests| {
      match requests[i]
      case TurnedAway =>
        BatchFailsExactlyWhen(t, next, requests, i + 1);
        EndsLater(t, t, requests, i);
      case Fatal =>
        assert EndsBatch(t, requests, i, i);
      case Signed(name, expiry) =>
        var cert := Certificate(next, name, expiry);
        SignedEnds(t, cert, requests, i);
        if Issued(t, cert).ok {
          BatchFailsExactlyWhen(Issued(t, cert).table, next + 1, requests, i + 1);
        }
        SignedFails(t, cert, requests, i);
    }
  }

  lemma SignedFails(t: Table, cert: Certificate, requests: seq<Request>, i: nat)
    requires i < |requests| && requests[i] == Signed(cert.name, cert.expiry)
    requires var r := Issued(t, cert);
             if r.ok then
               && FailsAtEnd(r.table, cert.serial + 1, requests, i + 1)
               && (SomeEnds(t, requests, i) <==> SomeEnds(r.table, requests, i + 1))
             else SomeEnds(t, requests, i)
    ensures FailsAtEnd(t, cert.serial, requests, i)
  {
  }

  lemma SignedEnds(t: Table, cert: Certificate, requests: seq<Request>, i: nat)
    requires i < |requests| && requests[i] == Signed(cert.name, cert.expiry) && Numbering(t, cert.serial)
    ensures var r := Issued(t, cert);
            if r.ok then
              && Numbering(r.table, cert.serial + 1)
              && (SomeEnds(t, requests, i) <==> SomeEnds(r.table, requests, i + 1))
            else SomeEnds(t, requests, i)
  {
    var r := Issued(t, cert);
    CounterStaysAbove(t, cert);
    assert r.ok <==> !EndsBatch(t, requests, i, i);
    if r.ok {
      NamesAfter(t, cert);
      EndsLater(t, r.table, requests, i);
    }
  }

  lemma EndsLater(t: Table, u: Table, requests: seq<Request>, i: nat)
    requires i < |requests| && u.unique == t.unique && !EndsBatch(t, requests, i, i)
    requires t.unique ==> forall name ::
               NameTaken(u, name) <==> NameTaken(t, name) || (requests[i].Signed? && name == requests[i].name)
    ensures SomeEnds(t, requests, i) <==> SomeEnds(u, requests, i + 1)
  {
    forall j | i < j < |requests|
      ensures EndsBatch(t, requests, i, j) <==> EndsBatch(u, requests, i + 1, j)
    {
      OneMoreAsked(requests, i, j);
    }
    if SomeEnds(t, requests, i) {
      var j :| i <= j < |requests| && EndsBatch(t, requests, i, j);
      assert EndsBatch(u, requests, i + 1, j);
    }
    if SomeEnds(u, requests, i + 1) {
      var j :| i + 1 <= j < |requests| && EndsBatch(u, requests, i + 1, j);
      assert EndsBatch(t, requests, i, j);
    }
  }

  lemma OneMoreAsked(requests: seq<Request>, i: nat, j: nat)
    requires i < j < |requests|
    ensures requests[j].Signed? ==>
              (AskedBefore(requests, i, j) <==>
               AskedBefore(requests, i + 1, j) || (requests[i].Signed? && requests[i].name == requests[j].name))
  {
  }

  lemma NamesAfter(t: Table, cert: Certificate)
    requires Issued(t, cert).ok && t.unique ==> forall k | k in t.named :: k < |t.rows|
    ensures var r := Issued(t, cert);
            r.ok && (forall k | k in t.named :: k < |t.rows|) ==>
              && r.table.unique == t.unique && (forall k | k in r.table.named :: k < |r.table.rows|)
              && (t.unique ==> forall name :: NameTaken(r.table, name) <==> NameTaken(t, name) || name == cert.name)
  {
    var r := Issued(t, cert);
    if r.ok && t.unique && (forall k | k in t.named :: k < |t.rows|) {
      assert |t.rows| in r.table.named && r.table.rows[|t.rows|].name == cert.name;
      forall name ensures NameTaken(r.table, name) <==> NameTaken(t, name) || name == cert.name {
        if NameTaken(t, name) {
          var i :| 0 <= i < |t.rows| && i in t.named && t.rows[i].name == name;
          assert i in r.table.named && r.table.rows[i].name == name;
        }
      }
    }
  }

  /** With the stored number above every row, the new number is above every row, old and new. */
  lemma {:induction false} BatchStaysBelow(t: Table, next: int, requests: seq<Request>, i: nat)
    requires i <= |requests| && AllBelow(t.rows, next)
    ensures var r := IssuedAll(t, next, requests, i);
            r.Some? ==>
              var (u, after) := r.value;
              next <= after && AllBelow(u.rows, after) && after - next == |u.rows| - |t.rows| && t.rows <= u.rows
    decreases |requests| - i
  {
    if i < |requests| {
      match requests[i]
      case TurnedAway => BatchStaysBelow(t, next, requests, i + 1);
      case Fatal =>
      case Signed(name, expiry) =>
        var cert := Certificate(next, name, expiry);
        CounterStaysAbove(t, cert);
        var r := Issued(t, cert);
        if r.ok {
          OneMoreRow(t, cert);
          BatchStaysBelow(r.table, next + 1, requests, i + 1);
        }
    }
  }

  lemma OneMoreRow(t: Table, cert: Certificate)
    requires Issued(t, cert).ok
    ensures var u := Issued(t, cert).table;
            && u.rows == t.rows + [NewRow(Wanted(cert.name, cert.expiry), cert.serial)]
            && u.unique == t.unique
  {
  }

  lemma MoreRoom(rows: seq<Row>, n: int, m: int)
    requires AllBelow(rows, n) && n <= m
    ensures AllBelow(rows, m)
  {
  }

  /** Where there is a serial number, it is above every row of the index. */
  ghost predicate Safe(files: Files<Content>, serialFile: Path, dbFile: Path) {
    serialFile in files && dbFile in files && files[serialFile].Number? && files[dbFile].Index? ==>
      AllBelow(files[dbFile].rows, files[serialFile].number)
  }

  const NEW := "new"
  const OLD := "old"

  /** The names of the serial file and of the index, live, staged and backed up, are all different. */
  predicate NamesFit(serialFile: Path, dbFile: Path) {
    && Distinct(NamesOf(serialFile, NEW, OLD))
    && Apart(IndexNames(dbFile, NEW, OLD), AttributeNames(dbFile, NEW, OLD))
    && PathsOf(NamesOf(serialFile, NEW, OLD)) !! PathsOf(IndexNames(dbFile, NEW, OLD))
    && PathsOf(NamesOf(serialFile, NEW, OLD)) !! PathsOf(AttributeNames(dbFile, NEW, OLD))
  }

  method SaveSerial(disk: Disk<Content>, serialFile: Path, suffix: string, number: int) returns (ok: bool)
    modifies disk
    ensures disk.files ==
            if ok then old(disk.files)[Suffixed(serialFile, suffix) := Number(number)] else old(disk.files)
    ensures ok ==> |Suffixed(serialFile, suffix)| < 256
    ensures disk.failures >= old(disk.failures)
    ensures |Suffixed(serialFile, suffix)| < 256 && disk.failures == old(disk.failures) ==> ok
    ensures disk.denials == old(disk.denials) && old(disk.trace) <= disk.trace
    ensures forall k | |old(disk.trace)| <= k < |disk.trace| :: disk.trace[k] == disk.files
  {
    if |serialFile| + |suffix| + 1 >= BSIZE {
      return false;
    }
    ok := disk.Write(Suffixed(serialFile, suffix), Number(number));
  }

  method SaveIndex(disk: Disk<Content>, dbFile: Path, suffix: string, t: Table) returns (ok: bool)
    requires Suffixed(dbFile, suffix) != Suffixed(dbFile + ".attr", suffix)
    modifies disk
    ensures ok ==> |Suffixed(dbFile + ".attr", suffix)| < 256
    ensures disk.failures >= old(disk.failures)
    ensures |Suffixed(dbFile + ".attr", suffix)| < 256 && disk.failures == old(disk.failures) ==> ok
    ensures ok ==> disk.files == old(disk.files)[Suffixed(dbFile, suffix) := Index(t.rows)]
                                                [Suffixed(dbFile + ".attr", suffix) := Attributes(t.unique)]
    ensures SameBut(old(disk.files), disk.files, {Suffixed(dbFile, suffix), Suffixed(dbFile + ".attr", suffix)})
    ensures disk.denials == old(disk.denials) && old(disk.trace) <= disk.trace
    ensures forall k | |old(disk.trace)| <= k < |disk.trace| ::
              SameBut(old(disk.files), disk.trace[k], {Suffixed(dbFile, suffix), Suffixed(dbFile + ".attr", suffix)})
  {
    if |dbFile| + |suffix| + 6 >= BSIZE {
      return false;
    }
    ok := disk.Write(Suffixed(dbFile, suffix), Index(t.rows));
    if !ok {
      return;
    }
    ok := disk.Write(Suffixed(dbFile + ".attr", suffix), Attributes(t.unique));
  }

  /** The requests one after the other, the number moving on with every certificate. */
  method IssueBatch(t: Table, next: int, requests: seq<Request>) returns (r: Option<(Table, int)>)
    ensures r == IssuedAll(t, next, requests, 0)
  {
    var u, number := t, next;
    for i := 0 to |requests|
      invariant IssuedAll(u, number, requests, i) == IssuedAll(t, next, requests, 0)
    {
      match requests[i]
      case TurnedAway =>
      case Fatal => return None;
      case Signed(name, expiry) =>
        var issued := Issued(u, Certificate(number, name, expiry));
        if !issued.ok {
          return None;
        }
        u, number := issued.table, number + 1;
    }
    return Some((u, number));
  }

  function StagedPaths(serialFile: Path, dbFile: Path): set<Path> {
    {Suffixed(serialFile, NEW), Suffixed(dbFile, NEW), Suffixed(dbFile + ".attr", NEW)}
  }

  /** Every name the command builds has room for its terminator. */
  predicate AllFit(serialFile: Path, dbFile: Path) {
    && |Suffixed(serialFile, NEW)| < 256 && |Suffixed(serialFile, OLD)| < 256
    && IndexFits(dbFile, NEW, OLD)
  }

  /** The live files are the new ones, and the former live ones are the backups. */
  ghost predicate Installed(files: Files<Content>, serialFile: Path, dbFile: Path, t: Table, next: int,
                            rows: seq<Row>, after: int) {
    && Holding(files, serialFile, Number(after)) && Holding(files, serialFile + ".old", Number(next))
    && Holding(files, dbFile, Index(rows)) && Holding(files, dbFile + ".old", Index(t.rows))
    && Holding(files, dbFile + ".attr", Attributes(t.unique))
  }

  predicate Holding(files: Files<Content>, path: Path, content: Content) {
    path in files && files[path] == content
  }

  method SaveBoth(disk: Disk<Content>, serialFile: Path, dbFile: Path, u: Table, after: int) returns (ok: bool)
    requires NamesFit(serialFile, dbFile)
    modifies disk
    ensures SameBut(old(disk.files), disk.files, StagedPaths(serialFile, dbFile))
    ensures ok ==> && Suffixed(serialFile, NEW) in disk.files && disk.files[Suffixed(serialFile, NEW)] == Number(after)
                   && Suffixed(dbFile, NEW) in disk.files && disk.files[Suffixed(dbFile, NEW)] == Index(u.rows)
                   && Suffixed(dbFile + ".attr", NEW) in disk.files
                   && disk.files[Suffixed(dbFile + ".attr", NEW)] == Attributes(u.unique)
    ensures disk.failures >= old(disk.failures)
    ensures AllFit(serialFile, dbFile) && disk.failures == old(disk.failures) ==> ok
    ensures disk.denials == old(disk.denials) && old(disk.trace) <= disk.trace
    ensures forall k | |old(disk.trace)| <= k < |disk.trace| ::
              SameBut(old(disk.files), disk.trace[k], StagedPaths(serialFile, dbFile))
  {
    ghost var s := Suffixed(serialFile, NEW);
    assert s in PathsOf(NamesOf(serialFile, NEW, OLD));
    assert Suffixed(dbFile, NEW) in PathsOf(IndexNames(dbFile, NEW, OLD));
    assert Suffixed(dbFile + ".attr", NEW) in PathsOf(AttributeNames(dbFile, NEW, OLD));
    ok := SaveSerial(disk, serialFile, NEW, after);
    ghost var saved, there := disk.files, |disk.trace|;
    assert SameBut(old(disk.files), saved, {s});
    if ok {
      ok := SaveIndex(disk, dbFile, NEW, u);
      forall k | there <= k < |disk.trace|
        ensures SameBut(old(disk.files), disk.trace[k], StagedPaths(serialFile, dbFile))
      {
        SameButTwice(old(disk.files), saved, disk.trace[k], {s}, StagedPaths(serialFile, dbFile) - {s});
      }
      SameButTwice(old(disk.files), saved, disk.files, {s}, StagedPaths(serialFile, dbFile) - {s});
    }
  }

  lemma SameButTwice<C>(a: Files<C>, b: Files<C>, c: Files<C>, first: set<Path>, second: set<Path>)
    requires SameBut(a, b, first) && SameBut(b, c, second)
    ensures SameBut(a, c, first + second)
  {
    forall p | p !in first + second ensures SameAt(a, c, p) {
      assert SameAt(a, b, p) && SameAt(b, c, p);
    }
  }

  /** Saves both files and rotates them, the serial file first. */
  method Install(disk: Disk<Content>, serialFile: Path, dbFile: Path, t: Table, next: int, u: Table, after: int)
    returns (ok: bool)
    requires NamesFit(serialFile, dbFile)
    requires serialFile in disk.files && disk.files[serialFile] == Number(next)
    requires dbFile in disk.files && disk.files[dbFile] == Index(t.rows)
    requires AllBelow(t.rows, next) && next <= after && AllBelow(u.rows, after) && u.unique == t.unique
    modifies disk
    ensures old(disk.trace) <= disk.trace
    ensures forall k | |old(disk.trace)| <= k < |disk.trace| :: Safe(disk.trace[k], serialFile, dbFile)
    ensures ok ==> Installed(disk.files, serialFile, dbFile, t, next, u.rows, after)
    ensures && AllFit(serialFile, dbFile)
            && disk.denials == old(disk.denials) && disk.failures == old(disk.failures)
            ==> ok
    ensures disk.denials >= old(disk.denials) && disk.failures >= old(disk.failures)
    ensures !ok && disk.denials <= old(disk.denials) + 1 ==>
              && dbFile in disk.files && disk.files[dbFile] == Index(t.rows)
              && serialFile in disk.files && disk.files[serialFile] in {Number(next), Number(after)}
  {
    ghost var a := disk.files;
    ok := SaveBoth(disk, serialFile, dbFile, u, after);
    LivesAreKept(a, disk.files, serialFile, dbFile);
    forall k | |old(disk.trace)| <= k < |disk.trace|
      ensures Safe(disk.trace[k], serialFile, dbFile)
    {
      LivesAreKept(a, disk.trace[k], serialFile, dbFile);
    }
    if ok {
      ok := RotateBoth(disk, serialFile, dbFile, t, next, u, after);
    }
  }

  lemma LivesAreKept(a: Files<Content>, b: Files<Content>, serialFile: Path, dbFile: Path)
    requires NamesFit(serialFile, dbFile) && SameBut(a, b, StagedPaths(serialFile, dbFile))
    ensures SameAt(a, b, serialFile) && SameAt(a, b, dbFile)
  {
    var s, d, t := NamesOf(serialFile, NEW, OLD), IndexNames(dbFile, NEW, OLD), AttributeNames(dbFile, NEW, OLD);
    assert s.live in PathsOf(s) && s.staged in PathsOf(s);
    assert d.live in PathsOf(d) && d.staged in PathsOf(d);
    assert t.staged in PathsOf(t);
  }

  lemma NamesDiffer(serialFile: Path, dbFile: Path)
    requires NamesFit(serialFile, dbFile)
    ensures var s, d := NamesOf(serialFile, NEW, OLD), IndexNames(dbFile, NEW, OLD);
            var t := AttributeNames(dbFile, NEW, OLD);
            && d.live !in PathsOf(s) && d.staged !in PathsOf(s) && t.staged !in PathsOf(s)
            && s.live !in PathsOf(d) + PathsOf(t) && s.backup !in PathsOf(d) + PathsOf(t)
  {
    var s, d, t := NamesOf(serialFile, NEW, OLD), IndexNames(dbFile, NEW, OLD), AttributeNames(dbFile, NEW, OLD);
    assert s.live in PathsOf(s) && s.backup in PathsOf(s);
    assert d.live in PathsOf(d) && d.staged in PathsOf(d) && t.staged in PathsOf(t);
  }

  method RotateBoth(disk: Disk<Content>, serialFile: Path, dbFile: Path, t: Table, next: int, u: Table, after: int)
    returns (ok: bool)
    requires NamesFit(serialFile, dbFile)
    requires serialFile in disk.files && disk.files[serialFile] == Number(next)
    requires dbFile in disk.files && disk.files[dbFile] == Index(t.rows)
    requires Suffixed(serialFile, NEW) in disk.files && disk.files[Suffixed(serialFile, NEW)] == Number(after)
    requires Suffixed(dbFile, NEW) in disk.files && disk.files[Suffixed(dbFile, NEW)] == Index(u.rows)
    requires Holding(disk.files, Suffixed(dbFile + ".attr", NEW), Attributes(u.unique))
    requires AllBelow(t.rows, next) && next <= after && AllBelow(u.rows, after) && u.unique == t.unique
    modifies disk
    ensures old(disk.trace) <= disk.trace
    ensures forall k | |old(disk.trace)| <= k < |disk.trace| :: Safe(disk.trace[k], serialFile, dbFile)
    ensures ok ==> Installed(disk.files, serialFile, dbFile, t, next, u.rows, after)
    ensures && AllFit(serialFile, dbFile)
            && disk.denials == old(disk.denials) && disk.failures == old(disk.failures)
            ==> ok
    ensures disk.denials >= old(disk.denials) && disk.failures >= old(disk.failures)
    ensures !ok && disk.denials <= old(disk.denials) + 1 ==>
              && dbFile in disk.files && disk.files[dbFile] == Index(t.rows)
              && serialFile in disk.files && disk.files[serialFile] in {Number(next), Number(after)}
  {
    ghost var a := disk.files;
    ghost var s, d := NamesOf(serialFile, NEW, OLD), IndexNames(dbFile, NEW, OLD);
    ghost var attr := AttributeNames(dbFile, NEW, OLD);
    assert s.backup == serialFile + ".old" && d.backup == dbFile + ".old";
    MoreRoom(t.rows, next, after);
    NamesDiffer(serialFile, dbFile);
    ok := disk.RotateSerial(serialFile, NEW, OLD);
    ghost var b := disk.files;
    assert SameAt(a, b, d.live) && SameAt(a, b, d.staged) && SameAt(a, b, attr.staged);
    if !ok {
      assert disk.denials <= old(disk.denials) + 1 ==> SameAt(a, b, s.live);
      return;
    }
    ghost var reached;
    ok, reached := disk.RotateIndex(dbFile, NEW, OLD);
    assert SameAt(b, disk.files, s.live) && SameAt(b, disk.files, s.backup);
    assert !ok && disk.denials <= old(disk.denials) + 1 ==> SameAt(b, disk.files, d.live);
    assert ok ==> SameAt(Rotated(b, d), disk.files, d.live) && SameAt(Rotated(b, d), disk.files, d.backup);
    assert ok ==> SameAt(Rotated(b, attr), disk.files, attr.live);
  }

  /** The configuration names different files; the suffixes then keep all nine names apart. */
  predicate FilesDiffer(serialFile: Path, dbFile: Path) {
    && PathsOf(NamesOf(serialFile, NEW, OLD)) !! PathsOf(IndexNames(dbFile, NEW, OLD))
    && PathsOf(NamesOf(serialFile, NEW, OLD)) !! PathsOf(AttributeNames(dbFile, NEW, OLD))
  }

  lemma FilesDifferFit(serialFile: Path, dbFile: Path)
    requires FilesDiffer(serialFile, dbFile)
    ensures NamesFit(serialFile, dbFile)
  {
    SuffixesKeepApart(serialFile, NEW, OLD);
    SuffixesKeepApart(dbFile, NEW, OLD);
  }

  /**
   A whole run of the command.  At every point, whatever fails, the number in the serial file is above
   every row of the index; on success the index holds one more row for each signed request, and the
   number has moved on by as many.  It succeeds if nothing fails.  After one denial the index is as before,
   and the number is the old one or, harmlessly, the new one.
   */
  method IssueAndCommit(disk: Disk<Content>, serialFile: Path, dbFile: Path, t: Table, next: int,
                        requests: seq<Request>)
    returns (ok: bool)
    requires FilesDiffer(serialFile, dbFile)
    requires serialFile in disk.files && disk.files[serialFile] == Number(next)
    requires dbFile in disk.files && disk.files[dbFile] == Index(t.rows)
    requires AllBelow(t.rows, next)
    modifies disk
    ensures old(disk.trace) <= disk.trace
    ensures forall k | |old(disk.trace)| <= k < |disk.trace| :: Safe(disk.trace[k], serialFile, dbFile)
    ensures ok ==> Holding(disk.files, serialFile, Number(next + |SignedOf(requests, 0)|))
    ensures ok ==> dbFile in disk.files && disk.files[dbFile].Index?
                   && HoldsBatch(disk.files[dbFile].rows, t.rows, next, SignedOf(requests, 0))
    ensures ok && SignedOf(requests, 0) != [] ==>
              Installed(disk.files, serialFile, dbFile, t, next, disk.files[dbFile].rows,
                        next + |SignedOf(requests, 0)|)
    ensures && IssuedAll(t, next, requests, 0).Some? && AllFit(serialFile, dbFile)
            && disk.denials == old(disk.denials) && disk.failures == old(disk.failures)
            ==> ok
    ensures IssuedAll(t, next, requests, 0).None? ==> !ok && disk.files == old(disk.files)
    ensures Numbering(t, next) && SomeEnds(t, requests, 0) ==> !ok && disk.files == old(disk.files)
    ensures && Numbering(t, next) && !SomeEnds(t, requests, 0) && AllFit(serialFile, dbFile)
            && disk.denials == old(disk.denials) && disk.failures == old(disk.failures)
            ==> ok
    ensures !ok && disk.denials <= old(disk.denials) + 1 ==>
              && dbFile in disk.files && disk.files[dbFile] == Index(t.rows)
              && serialFile in disk.files && disk.files[serialFile].Number? && disk.files[serialFile].number >= next
  {
    FilesDifferFit(serialFile, dbFile);
    BatchStaysBelow(t, next, requests, 0);
    BatchIsHeld(t, next, requests);
    if Numbering(t, next) {
      BatchFailsExactlyWhen(t, next, requests, 0);
    }
    var batch := IssueBatch(t, next, requests);
    match batch
    case None =>
      ok := false;
    case Some((u, after)) =>
      if after == next {
        // no certificate was signed
        return true;
      }
      ok := Install(disk, serialFile, dbFile, t, next, u, after);
  }

  /** From any such point the next run issues a number that no row has. */
  lemma NextIsFresh(files: Files<Content>, serialFile: Path, dbFile: Path, t: Table, cert: Certificate)
    requires serialFile in files && files[serialFile].Number? && dbFile in files && files[dbFile] == Index(t.rows)
    requires Safe(files, serialFile, dbFile) && cert.serial == files[serialFile].number
    ensures FindSerial(t.rows, Hex(cert.serial), 0).None?
    ensures Issued(t, cert).ok <==> !(t.unique && NameTaken(t, cert.name))
  {
    CounterStaysAbove(t, cert);
  }
}
