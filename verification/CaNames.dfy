/**
 Which names the ca command takes for taken where subjects are unique: those of the rows that were
 valid when the table was last loaded, and of the rows added since.
 */
module CaNames {
  import opened Options
  import opened Serials
  import opened RevocationInfo
  import opened CaTable

  predicate ValidName(rows: seq<Row>, name: string) {
    exists i | 0 <= i < |rows| :: rows[i].kind == 'V' && rows[i].name == name
  }

  /** On a table just loaded, a certificate is refused only for its serial and for names of valid rows. */
  lemma RenewalExactlyWhen(t: Table, cert: Certificate)
    requires t.unique
    ensures Issued(Reloaded(t), cert).ok <==>
            && (forall i | 0 <= i < |t.rows| :: !SameSerial(t.rows[i].serial, Hex(cert.serial)))
            && !ValidName(t.rows, cert.name)
  {
    var u := Reloaded(t);
    IssueRecords(u, cert);
    assert forall i | 0 <= i < |t.rows| :: u.rows[i].serial == t.rows[i].serial && u.rows[i].name == t.rows[i].name;
    assert NameTaken(u, cert.name) <==> ValidName(t.rows, cert.name);
  }

  /** Where subjects are not unique, only the serial counts. */
  lemma SharedNamesExactlyWhen(t: Table, cert: Certificate)
    requires !t.unique
    ensures Issued(t, cert).ok <==> forall i | 0 <= i < |t.rows| :: !SameSerial(t.rows[i].serial, Hex(cert.serial))
  {
    IssueRecords(t, cert);
  }

  /** The revoked row of a name does not stand in the way of its renewal. */
  lemma RevokedNameIsFree(row: Row, cert: Certificate)
    requires row.kind == 'R' && row.name == cert.name && !SameSerial(row.serial, Hex(cert.serial))
    ensures Issued(Reloaded(Table([row], {}, true)), cert).ok
    ensures !Issued(Reloaded(Table([row.(kind := 'V')], {}, true)), cert).ok
  {
    var valid := row.(kind := 'V');
    RenewalExactlyWhen(Table([row], {}, true), cert);
    RenewalExactlyWhen(Table([valid], {}, true), cert);
    assert [valid][0].kind == 'V';
  }

  /** The name index as it was, and every row added since. */
  ghost predicate Extends(t: Table, u: Table) {
    && |t.rows| <= |u.rows| && u.unique == t.unique
    && (forall i | 0 <= i < |t.rows| :: u.rows[i].name == t.rows[i].name)
    && forall i | 0 <= i < |u.rows| :: i in u.named <==> i in t.named || i >= |t.rows|
  }

  lemma ExtendsTwice(t: Table, u: Table, v: Table)
    requires Extends(t, u) && Extends(u, v)
    ensures Extends(t, v)
  {
  }

  ghost predicate InRange(t: Table) {
    forall i | i in t.named :: i < |t.rows|
  }

  lemma InsertExtends(t: Table, row: Row)
    requires t.unique && InRange(t) && row.kind == 'V' && Insert(t, row).Some?
    ensures Extends(t, Insert(t, row).value) && InRange(Insert(t, row).value)
  {
  }

  lemma RevokedRowExtends(t: Table, i: nat, name: string, arg: Option<Revocation>, now: string, lib: Library)
    requires InRange(t) && i < |t.rows|
    ensures var u := RevokedRow(t, i, name, arg, now, lib).table; Extends(t, u) && InRange(u)
  {
  }

  lemma ApplyExtends(t: Table, op: Op, lib: Library)
    requires t.unique && !op.ReloadOp? && InRange(t)
    ensures Extends(t, Apply(t, op, lib)) && InRange(Apply(t, op, lib))
  {
    match op
    case IssueOp(cert) =>
      if Issued(t, cert).ok {
        InsertExtends(t, Row('V', cert.expiry, Some(""), Hex(cert.serial), cert.name));
      }
    case RevokeOp(cert, arg, now) =>
      var found := FindSerial(t.rows, Hex(cert.serial), 0);
      var row := Row('V', cert.expiry, None, Hex(cert.serial), cert.name);
      if found.Some? {
        RevokedRowExtends(t, found.value, cert.name, arg, now, lib);
      } else if Insert(t, row).Some? {
        var longer := Insert(t, row).value;
        InsertExtends(t, row);
        RevokedRowExtends(longer, |t.rows|, cert.name, arg, now, lib);
        ExtendsTwice(t, longer, RevokedRow(longer, |t.rows|, cert.name, arg, now, lib).table);
      }
    case UpdateOp(_) =>
  }

  lemma {:induction false} RunExtends(t: Table, ops: seq<Op>, lib: Library)
    requires t.unique && InRange(t)
    requires forall i | 0 <= i < |ops| :: !ops[i].ReloadOp?
    ensures Extends(t, Run(t, ops, lib))
    decreases |ops|
  {
    if ops != [] {
      var next := Apply(t, ops[0], lib);
      ApplyExtends(t, ops[0], lib);
      RunExtends(next, ops[1..], lib);
      ExtendsTwice(t, next, Run(next, ops[1..], lib));
    }
  }

  /**
   After any operations since the table was loaded, whatever they revoked or expired, a name is taken
   exactly if a row had it that was valid then, or that was added since.
   */
  lemma TakenSinceLoad(t: Table, ops: seq<Op>, name: string, lib: Library)
    requires t.unique && forall i | 0 <= i < |ops| :: !ops[i].ReloadOp?
    ensures var u := Run(Reloaded(t), ops, lib);
            && |t.rows| <= |u.rows|
            && (NameTaken(u, name) <==>
                  ValidName(t.rows, name) || exists i | |t.rows| <= i < |u.rows| :: u.rows[i].name == name)
  {
    var v := Reloaded(t);
    var u := Run(v, ops, lib);
    RunExtends(v, ops, lib);
    assert forall i | 0 <= i < |t.rows| :: u.rows[i].name == t.rows[i].name;
    assert forall i | 0 <= i < |t.rows| :: i in u.named <==> t.rows[i].kind == 'V';
  }
}
