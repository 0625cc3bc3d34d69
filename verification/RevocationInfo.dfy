/**
 The revocation column of the certificate table: make_revocation_str prints
 revtime[,reason[,extra]] and unpack_revinfo takes such a string apart again.
 */
module RevocationInfo {
  import opened Options
  import opened CStrings

  const REASONS: seq<string> := [
    "unspecified", "keyCompromise", "CACompromise", "affiliationChanged", "superseded",
    "cessationOfOperation", "certificateHold", "removeFromCRL",
    "holdInstruction", "keyTime", "CAkeyTime"
  ]
  const CRL_REASONS := 8
  const HOLD_INSTRUCTION := 8
  const KEY_TIME := 9
  const CA_KEY_TIME := 10

  // Reason codes of section 5.3.1 of RFC 5280.
  const NO_STATUS := -1
  const KEY_COMPROMISE := 1
  const CA_COMPROMISE := 2
  const CERTIFICATE_HOLD := 6
  const REMOVE_FROM_CRL := 8

  /** The revocation arguments of the command line. */
  datatype Revocation =
    | Plain
    | CrlReason(reason: string)
    | Hold(instruction: string)
    | KeyCompromise(time: string)
    | CaCompromise(time: string)

  /** What the ASN.1 library accepts: both time forms, and object identifiers with their number. */
  datatype Library = Library(utcTime: string -> bool, generalTime: string -> bool, oid: string -> Option<int>)

  datatype RevInfo = RevInfo(time: string, code: int, hold: Option<int>, compromise: Option<string>)

  // ----- Strings -----

  function Lower(c: char): char {
    if 'A' <= c <= 'Z' then c - 'A' + 'a' else c
  }

  predicate SameIgnoringCase(a: string, b: string) {
    |a| == |b| && forall i | 0 <= i < |a| :: Lower(a[i]) == Lower(b[i])
  }

  function FindReason(s: string, k: nat, limit: nat): (found: Option<nat>)
    requires k <= limit <= |REASONS|
    ensures found.Some? ==> k <= found.value < limit && SameIgnoringCase(s, REASONS[found.value])
    ensures forall i | k <= i < (if found.Some? then found.value else limit) :: !SameIgnoringCase(s, REASONS[i])
    decreases limit - k
  {
    if k == limit then None
    else if SameIgnoringCase(s, REASONS[k]) then Some(k)
    else FindReason(s, k + 1, limit)
  }

  function Comma(s: string, p: nat): (i: nat)
    requires p <= |s|
    ensures p <= i <= |s| && (i < |s| ==> s[i] == ',')
    ensures forall k | p <= k < i :: s[k] != ','
    decreases |s| - p
  {
    if p == |s| || s[p] == ',' then p else Comma(s, p + 1)
  }

  // ----- Printing and taking apart -----

  /** The reason and the extra argument printed for a revocation; absent when it is refused. */
  function Fields(r: Revocation, lib: Library): Option<(Option<string>, Option<string>)> {
    match r
    case Plain => Some((None, None))
    case CrlReason(reason) =>
      var i := FindReason(reason, 0, CRL_REASONS);
      if i.None? then None else Some((Some(REASONS[i.value]), None))
    case Hold(instruction) =>
      if lib.oid(instruction).None? then None else Some((Some("holdInstruction"), Some(instruction)))
    case KeyCompromise(time) =>
      if lib.generalTime(time) then Some((Some("keyTime"), Some(time))) else None
    case CaCompromise(time) =>
      if lib.generalTime(time) then Some((Some("CAkeyTime"), Some(time))) else None
  }

  function Behind(field: Option<string>): string {
    if field.Some? then "," + field.value else ""
  }

  function Printed(r: Revocation, now: string, lib: Library): Option<string> {
    var fields := Fields(r, lib);
    if fields.None? then None else Some(now + Behind(fields.value.0) + Behind(fields.value.1))
  }

  /** What a reason and an extra argument mean. */
  function Meaning(time: string, reason: Option<string>, arg: Option<string>, lib: Library): Option<RevInfo> {
    if !lib.utcTime(time) then None
    else if reason.None? then Some(RevInfo(time, NO_STATUS, None, None))
    else
      var i := FindReason(reason.value, 0, |REASONS|);
      if i.None? then None
      else if i.value == 7 then Some(RevInfo(time, REMOVE_FROM_CRL, None, None))
      else if i.value == HOLD_INSTRUCTION then
        if arg.None? || lib.oid(arg.value).None? then None
        else Some(RevInfo(time, CERTIFICATE_HOLD, lib.oid(arg.value), None))
      else if i.value == KEY_TIME || i.value == CA_KEY_TIME then
        if arg.None? || !lib.generalTime(arg.value) then None
        else Some(RevInfo(time, if i.value == KEY_TIME then KEY_COMPROMISE else CA_COMPROMISE, None, arg))
      else Some(RevInfo(time, i.value, None, None))
  }

  datatype Cut = Cut(time: string, reason: Option<string>, arg: Option<string>)

  /** The pieces of a string before, between and behind its first two commas. */
  function CutUp(s: string): Cut {
    var p := Comma(s, 0);
    if p == |s| then Cut(s, None, None) else CutAt(s, p, Comma(s, p + 1))
  }

  function CutAt(s: string, p: nat, q: nat): Cut
    requires p < q <= |s|
  {
    Cut(s[..p], Some(s[p + 1..q]), if q == |s| then None else Some(s[q + 1..]))
  }

  function Unpacked(s: string, lib: Library): Option<RevInfo> {
    var cut := CutUp(s);
    Meaning(cut.time, cut.reason, cut.arg, lib)
  }

  /** What a revocation is meant to record. */
  function Intended(r: Revocation, now: string, lib: Library): RevInfo {
    match r
    case Plain => RevInfo(now, NO_STATUS, None, None)
    case CrlReason(reason) =>
      var i := FindReason(reason, 0, CRL_REASONS);
      RevInfo(now, if i.None? then NO_STATUS else if i.value == 7 then REMOVE_FROM_CRL else i.value, None, None)
    case Hold(instruction) => RevInfo(now, CERTIFICATE_HOLD, lib.oid(instruction), None)
    case KeyCompromise(time) => RevInfo(now, KEY_COMPROMISE, None, Some(time))
    case CaCompromise(time) => RevInfo(now, CA_COMPROMISE, None, Some(time))
  }

  // ----- The buffer functions -----

  function Min(a: nat, b: nat): nat {
    if a < b then a else b
  }

  /** BUF_strlcpy into the rest of a buffer: as much as fits, always terminated. */
  method Strlcpy(dst: array<char>, at: nat, src: string)
    requires at < dst.Length && IsText(src)
    modifies dst
    ensures dst[..at] == old(dst[..at])
    ensures Holds(dst[..], at, src[..Min(|src|, dst.Length - at - 1)])
  {
    var n := Min(|src|, dst.Length - at - 1);
    for i := 0 to n
      invariant dst[..at] == old(dst[..at]) && dst[at..at + i] == src[..i]
    {
      dst[at + i] := src[i];
    }
    dst[at + n] := NUL;
  }

  /** BUF_strlcat: finds the terminator, then copies. */
  method Strlcat(dst: array<char>, src: string, ghost text: string)
    requires Holds(dst[..], 0, text) && IsText(src)
    modifies dst
    ensures Holds(dst[..], 0, text + src[..Min(|src|, dst.Length - |text| - 1)])
  {
    var l := 0;
    assert forall i | 0 <= i < |text| :: dst[i] == dst[..][0..|text|][i] == text[i];
    while dst[l] != NUL
      invariant l <= |text|
      decreases |text| - l
    {
      l := l + 1;
    }
    Strlcpy(dst, l, src);
    var n := Min(|src|, dst.Length - l - 1);
    assert dst[..][0..l + n] == dst[..l] + dst[..][l..l + n];
  }

  /**
   make_revocation_str: the size is added up first, and the string fills the allocation exactly,
   so nothing is cut off.
   */
  method MakeRevocationStr(r: Revocation, now: string, lib: Library) returns (str: array?<char>)
    requires IsText(now)
    requires match r
             case Plain => true
             case CrlReason(reason) => IsText(reason)
             case Hold(instruction) => IsText(instruction)
             case KeyCompromise(time) => IsText(time)
             case CaCompromise(time) => IsText(time)
    ensures str == null <==> Printed(r, now, lib).None?
    ensures str != null ==> fresh(str) && str[..] == Printed(r, now, lib).value + [NUL]
  {
    var reason: Option<string>, other: Option<string> := None, None;
    match r {
      case Plain =>
      case CrlReason(name) =>
        var i := 0;
        while i < CRL_REASONS
          invariant 0 <= i <= CRL_REASONS && reason.None?
          invariant FindReason(name, 0, CRL_REASONS) == FindReason(name, i, CRL_REASONS)
        {
          if SameIgnoringCase(name, REASONS[i]) {
            reason := Some(REASONS[i]);
            break;
          }
          i := i + 1;
        }
        if reason.None? {
          return null;
        }
      case Hold(instruction) =>
        if lib.oid(instruction).None? {
          return null;
        }
        reason, other := Some("holdInstruction"), Some(instruction);
      case KeyCompromise(time) =>
        if !lib.generalTime(time) {
          return null;
        }
        reason, other := Some("keyTime"), Some(time);
      case CaCompromise(time) =>
        if !lib.generalTime(time) {
          return null;
        }
        reason, other := Some("CAkeyTime"), Some(time);
    }
    ReasonsAreText();
    str := Concatenate(now, reason, other);
  }

  method Concatenate(now: string, reason: Option<string>, other: Option<string>) returns (str: array<char>)
    requires IsText(now) && (reason.Some? ==> IsText(reason.value)) && (other.Some? ==> IsText(other.value))
    ensures fresh(str) && str[..] == now + Behind(reason) + Behind(other) + [NUL]
  {
    var i := |now| + 1;
    if reason.Some? {
      i := i + |reason.value| + 1;
    }
    if other.Some? {
      i := i + |other.value| + 1;
    }
    str := new char[i];
    Strlcpy(str, 0, now);
    assert now[..|now|] == now;
    ghost var text := now;
    if reason.Some? {
      AppendField(str, reason.value, now);
      text := now + Behind(reason);
    }
    if other.Some? {
      AppendField(str, other.value, text);
    }
    text := text + Behind(other);
    assert text == now + Behind(reason) + Behind(other);
    assert str[..] == str[..][0..|text|] + [NUL];
  }

  method AppendField(str: array<char>, field: string, ghost text: string)
    requires Holds(str[..], 0, text) && IsText(field) && |text| + 1 + |field| < str.Length
    modifies str
    ensures Holds(str[..], 0, text + Behind(Some(field)))
  {
    Strlcat(str, ",", text);
    assert ","[..1] == ",";
    Strlcat(str, field, text + ",");
    assert field[..|field|] == field;
    assert text + "," + field == text + ("," + field);
  }

  lemma ReasonsAreText()
    ensures forall i | 0 <= i < |REASONS| :: IsText(REASONS[i])
    ensures IsText("holdInstruction") && IsText("keyTime") && IsText("CAkeyTime")
  {
  }

  /** The first half of unpack_revinfo: the copy is cut by writing terminators over two commas. */
  method CutCopy(str: string) returns (cut: Cut)
    requires IsText(str)
    ensures cut == CutUp(str)
  {
    var tmp := new char[|str| + 1](i => if 0 <= i < |str| then str[i] else NUL);
    var p := Comma(str, 0);
    if p == |str| {
      CutText(tmp[..], str, 0, p);
      assert str[0..] == str;
      return Cut(TextAt(tmp[..], 0), None, None);
    }
    tmp[p] := NUL;
    var q := Comma(str, p + 1);
    tmp[q] := NUL;
    var buf := tmp[..];
    CutCopied(buf, str, p, q);
    var arg: Option<string> := None;
    if q < |str| {
      arg := Some(TextAt(buf, q + 1));
    }
    return Cut(TextAt(buf, 0), Some(TextAt(buf, p + 1)), arg);
  }

  lemma CutCopied(buf: seq<char>, str: string, p: nat, q: nat)
    requires IsText(str) && p < q <= |str|
    requires |buf| == |str| + 1 && buf[p] == NUL && buf[q] == NUL && buf[|str|] == NUL
    requires forall i | 0 <= i < |str| && i != p && i != q :: buf[i] == str[i]
    ensures CutAt(str, p, q) == Cut(TextAt(buf, 0), Some(TextAt(buf, p + 1)),
                                    if q == |str| then None else Some(TextAt(buf, q + 1)))
  {
    CutText(buf, str, 0, p);
    CutText(buf, str, p + 1, q);
    if q < |str| {
      CutText(buf, str, q + 1, |str|);
    }
  }

  /** unpack_revinfo: the three pieces are checked and given their meaning. */
  method UnpackRevInfo(str: string, lib: Library) returns (info: Option<RevInfo>)
    requires IsText(str)
    ensures info == Unpacked(str, lib)
  {
    var cut := CutCopy(str);
    if !lib.utcTime(cut.time) {
      return None;
    }
    if cut.reason.None? {
      return Some(RevInfo(cut.time, NO_STATUS, None, None));
    }
    var code := LookUpReason(cut.reason.value);
    var hold, compromise := None, None;
    if code == NO_STATUS {
      return None;
    }
    if code == 7 {
      code := REMOVE_FROM_CRL;
    } else if code == HOLD_INSTRUCTION {
      if cut.arg.None? {
        return None;
      }
      code := CERTIFICATE_HOLD;
      hold := lib.oid(cut.arg.value);
      if hold.None? {
        return None;
      }
    } else if code == KEY_TIME || code == CA_KEY_TIME {
      if cut.arg.None? || !lib.generalTime(cut.arg.value) {
        return None;
      }
      compromise := cut.arg;
      code := if code == KEY_TIME then KEY_COMPROMISE else CA_COMPROMISE;
    }
    return Some(RevInfo(cut.time, code, hold, compromise));
  }

  method LookUpReason(name: string) returns (code: int)
    ensures code == match FindReason(name, 0, |REASONS|) case None => NO_STATUS case Some(i) => i
  {
    code := NO_STATUS;
    var i := 0;
    while i < |REASONS|
      invariant 0 <= i <= |REASONS| && code == NO_STATUS
      invariant FindReason(name, 0, |REASONS|) == FindReason(name, i, |REASONS|)
    {
      if SameIgnoringCase(name, REASONS[i]) {
        return i;
      }
      i := i + 1;
    }
  }

  lemma CutText(buf: seq<char>, str: string, at: nat, end: nat)
    requires at <= end <= |str| < |buf| && IsText(str) && buf[end] == NUL
    requires forall i | at <= i < end :: buf[i] == str[i]
    ensures TextAt(buf, at) == str[at..end]
    ensures end == |str| ==> TextAt(buf, at) == str[at..]
  {
    assert buf[at..end] == str[at..end];
    TextIsHeld(buf, at, str[at..end]);
    assert end == |str| ==> str[at..end] == str[at..];
  }

  // ----- Taking apart undoes printing -----

  lemma CommaIs(s: string, p: nat, i: nat)
    requires p <= i <= |s| && (i < |s| ==> s[i] == ',') && (forall k | p <= k < i :: s[k] != ',')
    ensures Comma(s, p) == i
  {
  }

  lemma ReasonFoundByName(i: nat, limit: nat)
    requires i < limit <= |REASONS|
    ensures FindReason(REASONS[i], 0, limit) == Some(i)
  {
    assert forall j, k | 0 <= j < k < |REASONS| && |REASONS[j]| == |REASONS[k]| ::
        Lower(REASONS[j][0]) != Lower(REASONS[k][0]);
    var found := FindReason(REASONS[i], 0, limit);
    assert SameIgnoringCase(REASONS[i], REASONS[i]);
  }

  /** Printed fields come back as they were; only the last one may contain commas. */
  lemma FieldsComeBack(now: string, reason: Option<string>, arg: Option<string>)
    requires ',' !in now && (reason.Some? ==> ',' !in reason.value) && (arg.Some? ==> reason.Some?)
    ensures CutUp(now + Behind(reason) + Behind(arg)) == Cut(now, reason, arg)
  {
    if reason.None? {
      assert now + "" + "" == now;
      CommaIs(now, 0, |now|);
    } else {
      var tail := Behind(arg);
      assert now + Behind(reason) + tail == now + "," + reason.value + tail;
      CutAtCommas(now, reason.value, tail);
      assert arg.Some? ==> tail[1..] == arg.value;
    }
  }

  lemma CutAtCommas(a: string, b: string, tail: string)
    requires ',' !in a && ',' !in b && (tail == "" || tail[0] == ',')
    ensures CutUp(a + "," + b + tail) == Cut(a, Some(b), if tail == "" then None else Some(tail[1..]))
  {
    var s, p, q := a + "," + b + tail, |a|, |a| + 1 + |b|;
    assert s[p] == ',';
    assert s[..p] == a && s[p + 1..q] == b && s[q..] == tail;
    assert forall k | 0 <= k < p :: s[k] == a[k];
    assert forall k | p + 1 <= k < q :: s[k] == b[k - p - 1];
    CommaIs(s, 0, p);
    CommaIs(s, p + 1, q);
    assert tail != "" ==> s[q] == tail[0] && s[q + 1..] == tail[1..];
  }

  /** The printed reason is found again in the table, and contains no comma. */
  lemma FieldsAreFound(r: Revocation, lib: Library)
    requires Fields(r, lib).Some?
    ensures var reason := Fields(r, lib).value.0;
            match r
            case Plain => true
            case CrlReason(name) =>
              ',' !in reason.value &&
              FindReason(reason.value, 0, |REASONS|) == FindReason(name, 0, CRL_REASONS)
            case Hold(_) => ',' !in reason.value && FindReason(reason.value, 0, |REASONS|) == Some(HOLD_INSTRUCTION)
            case KeyCompromise(_) => ',' !in reason.value && FindReason(reason.value, 0, |REASONS|) == Some(KEY_TIME)
            case CaCompromise(_) => ',' !in reason.value && FindReason(reason.value, 0, |REASONS|) == Some(CA_KEY_TIME)
  {
    assert forall i | 0 <= i < |REASONS| :: ',' !in REASONS[i];
    match r {
      case Plain =>
      case CrlReason(name) => ReasonFoundByName(FindReason(name, 0, CRL_REASONS).value, |REASONS|);
      case Hold(_) => ReasonFoundByName(HOLD_INSTRUCTION, |REASONS|);
      case KeyCompromise(_) => ReasonFoundByName(KEY_TIME, |REASONS|);
      case CaCompromise(_) => ReasonFoundByName(CA_KEY_TIME, |REASONS|);
    }
  }

  /** The named reasons and their codes, by section 5.3.1 of RFC 5280. */
  lemma ReasonCodes(i: nat, now: string, lib: Library)
    requires i < 8
    ensures var names := ["unspecified", "keyCompromise", "CACompromise", "affiliationChanged", "superseded",
                          "cessationOfOperation", "certificateHold", "removeFromCRL"];
            Intended(CrlReason(names[i]), now, lib).code == [0, 1, 2, 3, 4, 5, 6, 8][i]
  {
    ReasonFoundByName(i, CRL_REASONS);
  }

  /** And of the others: a compromise time goes with the same code as the named reason. */
  lemma OtherCodes(now: string, text: string, lib: Library)
    ensures Intended(Plain, now, lib) == RevInfo(now, NO_STATUS, None, None)
    ensures Intended(Hold(text), now, lib) == RevInfo(now, 6, lib.oid(text), None)
    ensures Intended(KeyCompromise(text), now, lib) == RevInfo(now, 1, None, Some(text))
    ensures Intended(CaCompromise(text), now, lib) == RevInfo(now, 2, None, Some(text))
    ensures Intended(CrlReason("keyCompromise"), now, lib).code == Intended(KeyCompromise(text), now, lib).code
    ensures Intended(CrlReason("CACompromise"), now, lib).code == Intended(CaCompromise(text), now, lib).code
    ensures Intended(CrlReason("certificateHold"), now, lib).code == Intended(Hold(text), now, lib).code
  {
    ReasonCodes(1, now, lib);
    ReasonCodes(2, now, lib);
    ReasonCodes(6, now, lib);
  }

  /** Reasons are found whatever the case of their letters, and printed as in the table. */
  lemma CaseDoesNotMatter(now: string, lib: Library)
    ensures Printed(CrlReason("KEYcompromise"), now, lib) == Some(now + ",keyCompromise")
  {
    var s := "KEYcompromise";
    assert |REASONS[0]| != |s|;
    assert REASONS[1] == "keyCompromise";
    assert SameIgnoringCase(s, REASONS[1]);
    assert FindReason(s, 1, CRL_REASONS) == Some(1);
    assert FindReason(s, 0, CRL_REASONS) == Some(1);
    assert Behind(Some("keyCompromise")) == ",keyCompromise";
    assert now + ",keyCompromise" + "" == now + ",keyCompromise";
  }

  /** What is printed for the other kinds of revocation. */
  lemma PrintedHold(now: string, text: string, lib: Library)
    ensures Printed(Plain, now, lib) == Some(now)
    ensures lib.oid(text).Some? ==> Printed(Hold(text), now, lib) == Some(now + (",holdInstruction," + text))
  {
    assert now + "" + "" == now;
    JoinedFields(now, "holdInstruction", text);
    assert "," + "holdInstruction" + "," == ",holdInstruction,";
  }

  lemma PrintedKeyTime(now: string, text: string, lib: Library)
    requires lib.generalTime(text)
    ensures Printed(KeyCompromise(text), now, lib) == Some(now + (",keyTime," + text))
  {
    JoinedFields(now, "keyTime", text);
    assert "," + "keyTime" + "," == ",keyTime,";
  }

  lemma PrintedCaKeyTime(now: string, text: string, lib: Library)
    requires lib.generalTime(text)
    ensures Printed(CaCompromise(text), now, lib) == Some(now + (",CAkeyTime," + text))
  {
    JoinedFields(now, "CAkeyTime", text);
    assert "," + "CAkeyTime" + "," == ",CAkeyTime,";
  }

  lemma JoinedFields(now: string, reason: string, text: string)
    ensures now + Behind(Some(reason)) + Behind(Some(text)) == now + ("," + reason + "," + text)
  {
  }

  lemma FieldsMean(r: Revocation, now: string, lib: Library)
    requires Fields(r, lib).Some?
    ensures var fields := Fields(r, lib).value;
            && (fields.0.Some? ==> ',' !in fields.0.value)
            && Meaning(now, fields.0, fields.1, lib) == if lib.utcTime(now) then Some(Intended(r, now, lib)) else None
  {
    FieldsAreFound(r, lib);
  }

  /** What make_revocation_str asks of its argument. */
  predicate Usable(r: Revocation, lib: Library) {
    match r
    case Plain => true
    case CrlReason(reason) => exists i | 0 <= i < CRL_REASONS :: SameIgnoringCase(reason, REASONS[i])
    case Hold(instruction) => lib.oid(instruction).Some?
    case KeyCompromise(time) => lib.generalTime(time)
    case CaCompromise(time) => lib.generalTime(time)
  }

  /** Refused are reasons not in the table, unknown object identifiers and malformed times; nothing else. */
  lemma AcceptedExactlyWhen(r: Revocation, now: string, lib: Library)
    ensures Printed(r, now, lib).Some? <==> Usable(r, lib)
  {
    if r.CrlReason? {
      var found := FindReason(r.reason, 0, CRL_REASONS);
      assert found.Some? ==> SameIgnoringCase(r.reason, REASONS[found.value]);
    }
  }

  /**
   Every accepted revocation is printed to a string that is taken apart into what it was meant to
   record, exactly when the current time is printed as a UTCTime; the clock of 2050 and later
   prints GeneralizedTime, which the other side refuses.
   */
  lemma UnpackUndoesMake(r: Revocation, now: string, lib: Library)
    requires Printed(r, now, lib).Some? && ',' !in now
    ensures Unpacked(Printed(r, now, lib).value, lib)
            == if lib.utcTime(now) then Some(Intended(r, now, lib)) else None
  {
    var fields := Fields(r, lib).value;
    FieldsMean(r, now, lib);
    FieldsComeBack(now, fields.0, fields.1);
  }
}
