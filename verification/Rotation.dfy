/**
 Putting the staged serial and index files in the place of the live ones, by renames that may each be
 denied, and undoing the renames made so far when one is.
 */
module Rotation {
  import opened Options

  type Path = string

  const BSIZE := 256

  /** ENOENT (or ENOTDIR) says that there is no such file; anything else is a denial. */
  datatype Errno = Missing | Denied

  datatype Names = Names(live: Path, staged: Path, backup: Path)

  type Files<C> = map<Path, C>

  function Suffixed(file: Path, suffix: string): Path {
    file + "." + suffix
  }

  function NamesOf(file: Path, newSuffix: string, oldSuffix: string): Names {
    Names(file, Suffixed(file, newSuffix), Suffixed(file, oldSuffix))
  }

  function PathsOf(n: Names): set<Path> {
    {n.live, n.staged, n.backup}
  }

  predicate Distinct(n: Names) {
    n.live != n.staged && n.live != n.backup && n.staged != n.backup
  }

  function Moved<C>(files: Files<C>, from: Path, to: Path): Files<C>
    requires from in files
  {
    (files - {from})[to := files[from]]
  }

  /** The staged file is live, and the live file, if there was one, is the backup. */
  function Rotated<C>(files: Files<C>, n: Names): Files<C>
    requires n.staged in files
  {
    var kept := if n.live in files then files[n.backup := files[n.live]] else files;
    (kept - {n.staged})[n.live := files[n.staged]]
  }

  predicate SameAt<C(==)>(a: Files<C>, b: Files<C>, p: Path) {
    (p in a <==> p in b) && (p in a && p in b ==> a[p] == b[p])
  }

  ghost predicate SameBut<C>(a: Files<C>, b: Files<C>, but: set<Path>) {
    forall p :: p !in but ==> SameAt(a, b, p)
  }

  /** No older backup would be taken for a live file that is missing. */
  predicate NoStaleBackup<C>(files: Files<C>, n: Names) {
    n.live in files || n.backup !in files
  }

  /** A file system on the way: what it holds at the live name was live or staged at first. */
  ghost predicate OnTheWay<C>(a: Files<C>, b: Files<C>, n: Names, others: set<Path>) {
    && SameBut(a, b, PathsOf(n) + others)
    && (n.live in a && n.live in b ==>
          b[n.live] == a[n.live] || (n.staged in a && b[n.live] == a[n.staged]))
  }

  /** What was at p is at p or at q. */
  predicate Survives<C(==)>(a: Files<C>, b: Files<C>, p: Path, q: Path) {
    p in a ==> (p in b && b[p] == a[p]) || (q in b && b[q] == a[p])
  }

  class Disk<C(==)> {
    var files: Files<C>

    /** How many renames of an existing file were denied, and every state the disk was in. */
    ghost var denials: nat
    ghost var trace: seq<Files<C>>

    /** How many files could not be written. */
    ghost var failures: nat

    constructor (files: Files<C>)
      ensures this.files == files && denials == 0 && failures == 0 && trace == []
    {
      this.files := files;
      denials, failures, trace := 0, 0, [];
    }

    method Rename(from: Path, to: Path) returns (error: Option<Errno>)
      requires from != to
      modifies this`files, this`denials, this`trace
      ensures from !in old(files) ==> error == Some(Missing)
      ensures from in old(files) ==> error == None || error == Some(Denied)
      ensures files == if error.None? then Moved(old(files), from, to) else old(files)
      ensures denials == old(denials) + if error == Some(Denied) then 1 else 0
      ensures trace == old(trace) + [files]
    {
      if from !in files {
        error := Some(Missing);
      } else {
        var denied: bool := *;
        if denied {
          error := Some(Denied);
          denials := denials + 1;
        } else {
          error := None;
          files := Moved(files, from, to);
        }
      }
      trace := trace + [files];
    }

    /** Writes a file, or fails to open it. */
    method Write(path: Path, content: C) returns (ok: bool)
      modifies this`files, this`trace, this`failures
      ensures files == if ok then old(files)[path := content] else old(files)
      ensures failures == old(failures) + if ok then 0 else 1
      ensures trace == old(trace) + [files]
    {
      ok := *;
      if ok {
        files := files[path := content];
      } else {
        failures := failures + 1;
      }
      trace := trace + [files];
    }

    /** The renames rotate_serial makes, which are also those rotate_index makes for each file. */
    method Swap(n: Names) returns (ok: bool)
      requires Distinct(n)
      modifies this`files, this`denials, this`trace
      ensures ok ==> n.staged in old(files) && files == Rotated(old(files), n) && denials == old(denials)
      ensures denials == old(denials) ==> (ok <==> n.staged in old(files))
      ensures !ok && denials <= old(denials) + (if n.staged in old(files) then 1 else 0) ==>
                if NoStaleBackup(old(files), n) then SameBut(old(files), files, {n.backup})
                else files == Moved(old(files), n.backup, n.live)
      ensures SameBut(old(files), files, PathsOf(n))
      ensures Survives(old(files), files, n.live, n.backup) && Survives(old(files), files, n.staged, n.live)
      ensures denials >= old(denials) && old(trace) <= trace
      ensures forall k | |old(trace)| <= k < |trace| :: OnTheWay(old(files), trace[k], n, {})
    {
      var error := Rename(n.live, n.backup);
      if error == Some(Denied) {
        return false;
      }
      error := Rename(n.staged, n.live);
      if error.Some? {
        error := Rename(n.backup, n.live);
        return false;
      }
      return true;
    }

    /** Takes back a rotation, ignoring what the renames say. */
    method Undo(n: Names)
      requires Distinct(n)
      modifies this`files, this`denials, this`trace
      ensures denials == old(denials) ==> files == TakenBack(old(files), n)
      ensures SameBut(old(files), files, PathsOf(n))
      ensures denials >= old(denials) && old(trace) <= trace
      ensures forall k | |old(trace)| <= k < |trace| ::
                && SameBut(old(files), trace[k], PathsOf(n))
                && (n.live in trace[k] ==> HeldAt(old(files), trace[k][n.live], n))
    {
      var _ := Rename(n.live, n.staged);
      var _ := Rename(n.backup, n.live);
    }

    method RotateSerial(serialFile: Path, newSuffix: string, oldSuffix: string) returns (ok: bool)
      requires Distinct(NamesOf(serialFile, newSuffix, oldSuffix))
      modifies this`files, this`denials, this`trace
      ensures var n := NamesOf(serialFile, newSuffix, oldSuffix);
              var fits := |n.staged| < 256 && |n.backup| < 256;
              && SameBut(old(files), files, PathsOf(n))
              && (!fits ==> !ok && files == old(files))
              && (ok ==> n.staged in old(files) && files == Rotated(old(files), n) && denials == old(denials))
              && (denials == old(denials) ==> (ok <==> fits && n.staged in old(files)))
              && (!ok && fits && denials <= old(denials) + (if n.staged in old(files) then 1 else 0) ==>
                    if NoStaleBackup(old(files), n) then SameBut(old(files), files, {n.backup})
                    else files == Moved(old(files), n.backup, n.live))
      ensures denials >= old(denials) && old(trace) <= trace
      ensures forall k | |old(trace)| <= k < |trace| ::
                OnTheWay(old(files), trace[k], NamesOf(serialFile, newSuffix, oldSuffix), {})
    {
      var j := if |oldSuffix| > |newSuffix| then |oldSuffix| else |newSuffix|;
      if |serialFile| + j + 1 >= BSIZE {
        return false;
      }
      ok := Swap(NamesOf(serialFile, newSuffix, oldSuffix));
    }

    /** Two rotations, the second, if it is reached, undoing the first when it fails. */
    method RotateIndex(dbFile: Path, newSuffix: string, oldSuffix: string) returns (ok: bool, ghost reached: bool)
      requires Apart(IndexNames(dbFile, newSuffix, oldSuffix), AttributeNames(dbFile, newSuffix, oldSuffix))
      modifies this`files, this`denials, this`trace
      ensures IndexRotated(old(files), files, ok, reached, denials - old(denials),
                           IndexFits(dbFile, newSuffix, oldSuffix), IndexNames(dbFile, newSuffix, oldSuffix),
                           AttributeNames(dbFile, newSuffix, oldSuffix))
      ensures old(trace) <= trace
      ensures forall k | |old(trace)| <= k < |trace| ::
                OnTheWay(old(files), trace[k], IndexNames(dbFile, newSuffix, oldSuffix),
                         PathsOf(AttributeNames(dbFile, newSuffix, oldSuffix)))
    {
      var j := if |oldSuffix| > |newSuffix| then |oldSuffix| else |newSuffix|;
      if |dbFile| + j + 6 >= BSIZE {
        return false, false;
      }
      ok, reached := SwapBoth(IndexNames(dbFile, newSuffix, oldSuffix), AttributeNames(dbFile, newSuffix, oldSuffix));
    }

    method SwapBoth(d: Names, t: Names) returns (ok: bool, ghost reached: bool)
      requires Apart(d, t)
      modifies this`files, this`denials, this`trace
      ensures IndexRotated(old(files), files, ok, reached, denials - old(denials), true, d, t)
      ensures old(trace) <= trace
      ensures forall k | |old(trace)| <= k < |trace| :: OnTheWay(old(files), trace[k], d, PathsOf(t))
    {
      ghost var a := files;
      ok := Swap(d);
      reached := ok;
      ghost var rotated, there := files, trace;
      assert forall k | |old(trace)| <= k < |there| :: OnTheWay(a, there[k], d, PathsOf(t));
      if !ok {
        assert t.live !in PathsOf(d) && SameAt(a, files, t.live);
        return;
      }
      ok := Swap(t);
      ghost var failed, over := files, trace;
      forall k | |there| <= k < |over|
        ensures OnTheWay(a, over[k], d, PathsOf(t))
      {
        assert OnTheWay(rotated, over[k], t, {});
        OnTheWayThere(a, over[k], d, PathsOf(t));
      }
      if !ok {
        Undo(d);
        forall k | |over| <= k < |trace|
          ensures OnTheWay(a, trace[k], d, PathsOf(t))
        {
          OnTheWayBack(a, failed, trace[k], d, PathsOf(t));
        }
        if denials <= old(denials) + (if t.staged in a then 1 else 0) {
          TakenBackAfterRotation(a, failed, d, if NoStaleBackup(a, t) then {t.backup} else PathsOf(t));
          SecondAfterFailure(a, rotated, failed, files, d, t);
        }
      }
    }
  }

  /** What a failing second rotation leaves at its live name, once the first is taken back. */
  lemma SecondAfterFailure<C>(a: Files<C>, rotated: Files<C>, failed: Files<C>, b: Files<C>, d: Names, t: Names)
    requires Apart(d, t) && SameBut(a, rotated, PathsOf(d)) && SameBut(failed, b, PathsOf(d))
    requires if NoStaleBackup(rotated, t) then SameBut(rotated, failed, {t.backup})
             else failed == Moved(rotated, t.backup, t.live)
    ensures SameAt(a, b, t.live) <==> NoStaleBackup(a, t)
  {
    assert t.live in PathsOf(t) && t.backup in PathsOf(t);
    assert SameAt(a, rotated, t.live) && SameAt(a, rotated, t.backup) && SameAt(failed, b, t.live);
    assert NoStaleBackup(rotated, t) ==> SameAt(rotated, failed, t.live);
  }

  lemma OnTheWayThere<C>(a: Files<C>, b: Files<C>, n: Names, others: set<Path>)
    requires n.staged in a && others !! PathsOf(n) && SameBut(Rotated(a, n), b, others)
    ensures OnTheWay(a, b, n, others)
  {
    assert n.live !in others;
    assert SameAt(Rotated(a, n), b, n.live);
  }

  lemma OnTheWayBack<C>(a: Files<C>, failed: Files<C>, b: Files<C>, n: Names, others: set<Path>)
    requires Distinct(n) && n.staged in a && others !! PathsOf(n) && SameBut(Rotated(a, n), failed, others)
    requires SameBut(failed, b, PathsOf(n)) && (n.live in b ==> HeldAt(failed, b[n.live], n))
    ensures OnTheWay(a, b, n, others)
  {
    assert n.live !in others && n.staged !in others && n.backup !in others;
    var rotated := Rotated(a, n);
    assert SameAt(rotated, failed, n.live) && SameAt(rotated, failed, n.staged) && SameAt(rotated, failed, n.backup);
  }

  function IndexNames(dbFile: Path, newSuffix: string, oldSuffix: string): Names {
    NamesOf(dbFile, newSuffix, oldSuffix)
  }

  function AttributeNames(dbFile: Path, newSuffix: string, oldSuffix: string): Names {
    NamesOf(dbFile + ".attr", newSuffix, oldSuffix)
  }

  predicate Apart(d: Names, t: Names) {
    Distinct(d) && Distinct(t) && PathsOf(d) !! PathsOf(t)
  }

  /** Every name the rotation builds has room, with its terminator, in a buffer of 256 characters. */
  predicate IndexFits(dbFile: Path, newSuffix: string, oldSuffix: string) {
    var d := IndexNames(dbFile, newSuffix, oldSuffix);
    var t := AttributeNames(dbFile, newSuffix, oldSuffix);
    && |d.staged| < 256 && |d.backup| < 256
    && |t.live| < 256 && |t.staged| < 256 && |t.backup| < 256
  }

  /**
   All or nothing: on success both staged files are live and both live files are the backups; if one
   rename is denied, or a staged file is missing, all files but the backups are as before.  The
   exception is an old backup of a missing live file, of the index or, once its rotation is reached,
   of the attributes.
   */
  ghost predicate IndexRotated<C>(a: Files<C>, b: Files<C>, ok: bool, reached: bool, denials: int, fits: bool,
                                  d: Names, t: Names)
  {
    var staged := d.staged in a && t.staged in a;
    && denials >= 0
    && SameBut(a, b, PathsOf(d) + PathsOf(t))
    && (!fits ==> !ok && b == a)
    && (denials == 0 ==> (ok <==> fits && staged) && (reached <==> fits && d.staged in a))
    && (ok ==> reached && staged && BothRotated(a, b, d, t))
    && (!ok && denials <= (if staged then 1 else 0) ==>
          && (NoStaleBackup(a, d) && (!reached || NoStaleBackup(a, t)) ==> SameBut(a, b, {d.backup, t.backup}))
          && (fits ==> (SameAt(a, b, d.live) <==> NoStaleBackup(a, d)))
          && (SameAt(a, b, t.live) <==> !reached || NoStaleBackup(a, t)))
  }

  ghost predicate BothRotated<C>(a: Files<C>, b: Files<C>, d: Names, t: Names)
    requires d.staged in a && t.staged in a
  {
    && (forall p | p in PathsOf(d) :: SameAt(Rotated(a, d), b, p))
    && (forall p | p in PathsOf(t) :: SameAt(Rotated(a, t), b, p))
  }

  /**
   With the live and the staged file missing and a backup from an earlier run, rotating fails and,
   no rename being denied, the old backup is live.
   */
  method StaleSerialComesBack(stale: int) returns (ok: bool, live: Option<int>, ghost denials: nat)
    ensures !ok && (denials == 0 ==> live == Some(stale))
  {
    var disk := new Disk(map["serial.old" := stale]);
    var n := NamesOf("serial", "new", "old");
    assert n.live == "serial" && n.staged == "serial.new" && n.backup == "serial.old";
    assert n.live !in disk.files && n.staged !in disk.files;
    ok := disk.RotateSerial("serial", "new", "old");
    assert disk.denials == 0 ==> disk.files[n.live] == stale;
    live := if "serial" in disk.files then Some(disk.files["serial"]) else None;
    denials := disk.denials;
  }

  /** The same for the index when its new attributes were not staged, although the index was. */
  method StaleIndexComesBack(stale: int, staged: int) returns (ok: bool, changed: bool, ghost denials: nat)
    ensures !ok && (denials == 0 ==> changed)
  {
    var disk := new Disk(map["index.txt.old" := stale, "index.txt.new" := staged]);
    SuffixesKeepApart("index.txt", "new", "old");
    var d, t := IndexNames("index.txt", "new", "old"), AttributeNames("index.txt", "new", "old");
    assert d.staged == "index.txt.new" && d.backup == "index.txt.old" && t.staged == "index.txt.attr.new";
    assert d.live !in disk.files && t.staged !in disk.files;
    ghost var reached;
    ok, reached := disk.RotateIndex("index.txt", "new", "old");
    changed := "index.txt" in disk.files;
    denials := disk.denials;
  }

  /** With the live index in place, an old backup of missing attributes comes back in the same way. */
  method StaleAttributesComeBack(live: int, staged: int, stale: int)
    returns (ok: bool, changed: bool, ghost denials: nat)
    ensures !ok && (denials == 0 ==> changed)
  {
    var disk := new Disk(map["index.txt" := live, "index.txt.new" := staged, "index.txt.attr.old" := stale]);
    SuffixesKeepApart("index.txt", "new", "old");
    var d, t := IndexNames("index.txt", "new", "old"), AttributeNames("index.txt", "new", "old");
    assert d.staged == "index.txt.new" && t.backup == "index.txt.attr.old";
    assert t.live == "index.txt.attr" && t.staged == "index.txt.attr.new";
    assert t.live !in disk.files && t.staged !in disk.files;
    ghost var reached;
    ok, reached := disk.RotateIndex("index.txt", "new", "old");
    changed := "index.txt.attr" in disk.files;
    denials := disk.denials;
  }

  /** Suffixes without a dot, and other than "attr", never make two names meet. */
  lemma SuffixesKeepApart(dbFile: Path, newSuffix: string, oldSuffix: string)
    requires newSuffix != oldSuffix && newSuffix != "attr" && oldSuffix != "attr"
    requires '.' !in newSuffix && '.' !in oldSuffix
    ensures Apart(IndexNames(dbFile, newSuffix, oldSuffix), AttributeNames(dbFile, newSuffix, oldSuffix))
  {
    var attr := dbFile + ".attr";
    var d, t := IndexNames(dbFile, newSuffix, oldSuffix), AttributeNames(dbFile, newSuffix, oldSuffix);
    forall x | x in {newSuffix, oldSuffix}
      ensures |Suffixed(dbFile, x)| > |dbFile| && Suffixed(dbFile, x) != attr
    {
      assert Suffixed(dbFile, x)[|dbFile| + 1..] == x && attr[|dbFile| + 1..] == "attr";
    }
    assert Suffixed(dbFile, newSuffix)[|dbFile| + 1..] == newSuffix;
    assert Suffixed(dbFile, oldSuffix)[|dbFile| + 1..] == oldSuffix;
    assert Suffixed(attr, newSuffix)[|attr| + 1..] == newSuffix;
    assert Suffixed(attr, oldSuffix)[|attr| + 1..] == oldSuffix;
    forall x, y | x in {newSuffix, oldSuffix} && y in {newSuffix, oldSuffix}
      ensures Suffixed(dbFile, x) != Suffixed(attr, y)
    {
      assert Suffixed(attr, y)[|attr|] == '.';
      assert |Suffixed(dbFile, x)| > |attr| ==> Suffixed(dbFile, x)[|attr|] == x[4];
    }
  }

  /** Something the disk held under one of the names. */
  predicate HeldAt<C(==)>(files: Files<C>, content: C, n: Names) {
    || (n.live in files && files[n.live] == content)
    || (n.staged in files && files[n.staged] == content)
    || (n.backup in files && files[n.backup] == content)
  }

  function TakenBack<C>(files: Files<C>, n: Names): Files<C> {
    var once := if n.live in files then Moved(files, n.live, n.staged) else files;
    if n.backup in once then Moved(once, n.backup, n.live) else once
  }

  /** Rotating one set of names and taking it back, with other files changed in between. */
  lemma TakenBackAfterRotation<C>(a: Files<C>, b: Files<C>, n: Names, others: set<Path>)
    requires Distinct(n) && n.staged in a && others !! PathsOf(n)
    requires SameBut(Rotated(a, n), b, others)
    ensures NoStaleBackup(a, n) ==> SameBut(a, TakenBack(b, n), others + {n.backup})
    ensures SameAt(a, TakenBack(b, n), n.live) <==> NoStaleBackup(a, n)
  {
    var rotated := Rotated(a, n);
    assert n.live !in others && n.staged !in others && n.backup !in others;
    assert SameAt(rotated, b, n.live) && SameAt(rotated, b, n.staged) && SameAt(rotated, b, n.backup);
  }
}
