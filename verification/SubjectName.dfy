/**
 parse_name: the copy buffer and the three arrays it fills, and the name it then builds.
 */
module SubjectName {
  import opened Options
  import opened CStrings
  import opened SubjectGrammar

  // ----- The name built from the elements -----

  /** What the attribute library knows: the number of a type, and which values it takes. */
  datatype Registry = Registry(number: string -> Option<int>, takes: (int, string) -> bool)

  /** An entry and the relative name (the `set` field) it belongs to. */
  datatype Entry = Entry(number: int, value: string, rdn: int)

  type Name = seq<Entry>

  predicate Kept(e: Element, known: Registry) {
    known.number(e.kind).Some? && e.value != ""
  }

  function LastRdn(name: Name): int {
    if name == [] then -1 else name[|name| - 1].rdn
  }

  /** X509_NAME_add_entry at the end: set -1 stays in the last relative name, 0 opens the next. */
  function AddEntry(name: Name, number: int, value: string, set_: int): Name
    requires set_ == -1 || set_ == 0
  {
    name + [Entry(number, value, if set_ == -1 && name != [] then LastRdn(name) else LastRdn(name) + 1)]
  }

  /** Unknown types and empty values are skipped; a value the library does not take ends it. */
  function AssembleFrom(list: seq<Element>, k: nat, name: Name, known: Registry): Option<Name>
    requires k <= |list|
    decreases |list| - k
  {
    if k == |list| then Some(name)
    else if !Kept(list[k], known) then AssembleFrom(list, k + 1, name, known)
    else
      var number := known.number(list[k].kind).value;
      if !known.takes(number, list[k].value) then None
      else AssembleFrom(list, k + 1, AddEntry(name, number, list[k].value, Flag(list[k].joined)), known)
  }

  // ----- The buffers -----

  /** The entry of `mval` for an element: -1 joins it to the one before. */
  function Flag(joined: bool): int {
    if joined then -1 else 0
  }

  function Flags(list: seq<Element>): seq<int> {
    seq(|list|, i requires 0 <= i < |list| => Flag(list[i].joined))
  }

  /** Types and values lie in the copy buffer at the recorded offsets. */
  ghost predicate Stored(buf: seq<char>, types: seq<nat>, values: seq<nat>, list: seq<Element>)
    requires |types| == |values| == |list|
  {
    forall i | 0 <= i < |list| ::
      Holds(buf, types[i], list[i].kind) && Holds(buf, values[i], list[i].value)
  }

  lemma StoredOneMore(buf: seq<char>, more: seq<char>, types: seq<nat>, values: seq<nat>,
                      list: seq<Element>, kind: nat, value: nat, e: Element)
    requires |types| == |values| == |list| && Stored(buf, types, values, list)
    requires buf <= more && Holds(more, kind, e.kind) && Holds(more, value, e.value)
    ensures Stored(more, types + [kind], values + [value], list + [e])
  {
    forall i | 0 <= i < |list|
      ensures Holds(more, types[i], list[i].kind) && Holds(more, values[i], list[i].value)
    {
      HoldsLonger(buf, more, types[i], list[i].kind);
      HoldsLonger(buf, more, values[i], list[i].value);
    }
  }

  lemma FlagsOneMore(list: seq<Element>, e: Element, mval: seq<int>)
    requires |mval| == |list| + 1 && mval[..|list|] == Flags(list) && mval[|list|] == Flag(e.joined)
    ensures Flags(list + [e]) == mval
  {
    forall i | 0 <= i < |list|
      ensures Flags(list + [e])[i] == mval[i]
    {
      assert mval[i] == mval[..|list|][i];
    }
  }

  lemma HoldsLonger(buf: seq<char>, more: seq<char>, at: nat, text: string)
    requires buf <= more && Holds(buf, at, text)
    ensures Holds(more, at, text)
  {
    assert more[at..at + |text|] == buf[at..at + |text|];
  }

  /** `*bp++ = c`, with the text that began at `at`. */
  method Put(buf: array<char>, ghost at: nat, bp: nat, c: char) returns (next: nat)
    requires at <= bp < buf.Length
    modifies buf
    ensures next == bp + 1 && buf[..at] == old(buf[..at]) && buf[at..next] == old(buf[at..bp]) + [c]
  {
    buf[bp] := c;
    return bp + 1;
  }

  /** The loop that collects a type: at most one character is written for each one read. */
  method CollectType(subject: string, start: nat, buf: array<char>, at: nat)
    returns (ok: bool, sp: nat, bp: nat)
    requires IsText(subject) && at < start < |subject| && buf.Length == |subject| + 1
    modifies buf
    ensures buf[..at] == old(buf[..at])
    ensures var r := ReadType(subject, start, "");
            && ok == r.Piece?
            && (ok ==> sp == r.next && at <= bp < sp)
            && (ok && sp < |subject| ==>
                  bp == at + |r.text| + 1 && buf[at..bp] == r.text + [NUL] && IsText(r.text))
  {
    sp, bp, ok := start, at, true;
    while sp < |subject|
      invariant start <= sp <= |subject| && at <= bp && bp - at <= sp - start
      invariant buf[..at] == old(buf[..at]) && IsText(buf[at..bp])
      invariant ReadType(subject, start, "") == ReadType(subject, sp, buf[at..bp])
      decreases |subject| - sp
    {
      if subject[sp] == '\\' {
        sp := sp + 1;
        if sp == |subject| {
          ok := false;
          return;
        }
        bp := Put(buf, at, bp, subject[sp]);
        sp := sp + 1;
      } else if subject[sp] == '=' {
        sp := sp + 1;
        bp := Put(buf, at, bp, NUL);
        return;
      } else {
        bp := Put(buf, at, bp, subject[sp]);
        sp := sp + 1;
      }
    }
  }

  /** The loop that collects a value, and the terminator written behind it. */
  method CollectValue(subject: string, start: nat, multi: bool, buf: array<char>, at: nat)
    returns (ok: bool, sp: nat, bp: nat, stop: Stop)
    requires IsText(subject) && at < start < |subject| && buf.Length == |subject| + 1
    modifies buf
    ensures buf[..at] == old(buf[..at])
    ensures var r := ReadValue(subject, start, "", multi);
            && ok == r.Piece?
            && (ok ==>
                  && sp == r.next && stop == r.stop
                  && at < bp <= sp && (sp < |subject| ==> bp < sp)
                  && bp == at + |r.text| + 1 && buf[at..bp] == r.text + [NUL] && IsText(r.text))
  {
    sp, bp, ok, stop := start, at, true, End;
    while sp < |subject|
      invariant start <= sp <= |subject| && at <= bp && bp - at <= sp - start && stop == End
      invariant buf[..at] == old(buf[..at]) && IsText(buf[at..bp])
      invariant ReadValue(subject, start, "", multi) == ReadValue(subject, sp, buf[at..bp], multi)
      decreases |subject| - sp
    {
      if subject[sp] == '\\' {
        sp := sp + 1;
        if sp == |subject| {
          ok := false;
          return;
        }
        bp := Put(buf, at, bp, subject[sp]);
        sp := sp + 1;
      } else if subject[sp] == '/' {
        sp, stop := sp + 1, Slash;
        break;
      } else if subject[sp] == '+' && multi {
        sp, stop := sp + 1, Plus;
        break;
      } else {
        bp := Put(buf, at, bp, subject[sp]);
        sp := sp + 1;
      }
    }
    bp := Put(buf, at, bp, NUL);
  }

  /**
   Both loops: what lies before `at` stays, and the new type and value lie behind it.  The offsets are
   recorded where each loop begins, also if it then fails.
   */
  method CollectElement(subject: string, start: nat, multi: bool, buf: array<char>, at: nat,
                        neTypes: array<nat>, neValues: array<nat>, n: nat)
    returns (ok: bool, valueAt: nat, next: nat, end: nat, stop: Stop)
    requires IsText(subject) && at < start < |subject| && buf.Length == |subject| + 1
    requires n < neTypes.Length == neValues.Length && neTypes != neValues
    modifies buf, neTypes, neValues
    ensures buf[..at] == old(buf[..at])
    ensures neTypes[..n + 1] == old(neTypes[..n]) + [at] && neValues[..n] == old(neValues[..n])
    ensures ok ==> neValues[..n + 1] == old(neValues[..n]) + [valueAt]
    ensures var r := ReadElement(subject, start, multi);
            && ok == r.Read?
            && (ok ==>
                  && next == r.next && stop == r.stop
                  && at < end <= next && (next < |subject| ==> end < next)
                  && Holds(buf[..end], at, r.kind) && Holds(buf[..end], valueAt, r.value))
  {
    next, end, stop := start, at, End;
    neTypes[n] := at;
    var value;
    ok, value, valueAt := CollectType(subject, start, buf, at);
    if !ok || value == |subject| {
      ok := false;
      return;
    }
    neValues[n] := valueAt;
    ghost var kind := buf[at..valueAt];
    ok, next, end, stop := CollectValue(subject, value, multi, buf, valueAt);
    if ok {
      assert buf[at..valueAt] == buf[..valueAt][at..valueAt] == kind;
      HoldsText(buf[..], at, valueAt, end, ReadType(subject, start, "").text);
      HoldsText(buf[..], valueAt, end, end, ReadValue(subject, value, "", multi).text);
    }
  }

  lemma HoldsText(buf: seq<char>, at: nat, end: nat, limit: nat, text: string)
    requires at <= end <= limit <= |buf| && buf[at..end] == text + [NUL] && IsText(text)
    ensures Holds(buf[..limit], at, text)
  {
    assert buf[..limit][at..at + |text|] == buf[at..end][..|text|];
    assert buf[..limit][at + |text|] == buf[at..end][|text|];
  }

  ghost predicate ParsedSoFar(s: string, p: nat, list: seq<Element>, joined: bool, multi: bool)
    requires p <= |s|
  {
    Parse(s, multi) == ParseFrom(s, p, list, joined, multi)
  }

  lemma ParsedOneMore(s: string, p: nat, list: seq<Element>, joined: bool, multi: bool)
    requires p < |s| && ParsedSoFar(s, p, list, joined, multi)
    ensures match ReadElement(s, p, multi)
            case Refused(error) => Parse(s, multi) == Malformed(error)
            case Read(kind, value, next, stop) =>
              ParsedSoFar(s, next, list + [Element(kind, value, joined)], stop == Plus, multi)
  {
  }

  /**
   parse_name.  The buffers have the sizes the source computes; that every index stays inside them
   for every subject, well formed or not, is part of what verifies here.
   */
  method ParseName(subject: string, multi: bool, known: Registry) returns (name: Option<Name>)
    requires IsText(subject)
    ensures Parse(subject, multi).Elements? ==> name == AssembleFrom(Parse(subject, multi).list, 0, [], known)
    ensures Parse(subject, multi).Malformed? ==> name == None
  {
    var buflen := |subject| + 1;
    var buf := new char[buflen];
    var maxNe := buflen / 2 + 1;
    var neTypes, neValues, mval := new nat[maxNe], new nat[maxNe], new int[maxNe];
    if subject == "" || subject[0] != '/' {
      return None;
    }
    var ok, bp, neNum, list := CollectAll(subject, multi, buf, neTypes, neValues, mval);
    if !ok {
      return None;
    }
    name := AssembleName(buf[..bp], neTypes[..neNum], neValues[..neNum], mval[..neNum], list, known);
  }

  /** The loop over the elements; `mval` is written one place ahead. */
  method CollectAll(subject: string, multi: bool, buf: array<char>,
                    neTypes: array<nat>, neValues: array<nat>, mval: array<int>)
    returns (ok: bool, bp: nat, neNum: nat, ghost list: seq<Element>)
    requires IsText(subject) && subject != "" && subject[0] == '/'
    requires buf.Length == |subject| + 1
    requires neTypes.Length == neValues.Length == mval.Length == buf.Length / 2 + 1
    requires neTypes != neValues
    modifies buf, neTypes, neValues, mval
    ensures ok <==> Parse(subject, multi).Elements?
    ensures ok ==>
              && Parse(subject, multi).list == list && |list| == neNum <= mval.Length && bp <= |subject|
              && Stored(buf[..bp], neTypes[..neNum], neValues[..neNum], list)
              && mval[..neNum] == Flags(list)
  {
    var sp := 1;
    bp, neNum, list, ok := 0, 0, [], true;
    mval[0] := 0;
    ghost var joined := false;
    ghost var types: seq<nat>, values: seq<nat> := [], [];
    while sp < |subject|
      invariant 1 + 2 * neNum <= sp <= |subject| && bp <= sp && (sp < |subject| ==> bp < sp)
      invariant bp <= |subject| && |types| == |values| == |list| == neNum
      invariant ParsedSoFar(subject, sp, list, joined, multi)
      invariant neTypes[..neNum] == types && neValues[..neNum] == values
      invariant mval[..neNum] == Flags(list) && (sp < |subject| ==> mval[neNum] == Flag(joined))
      invariant Stored(buf[..bp], types, values, list)
      decreases |subject| - sp
    {
      ghost var before := buf[..bp];
      var valueAt, next, end, stop;
      ok, valueAt, next, end, stop := CollectElement(subject, sp, multi, buf, bp, neTypes, neValues, neNum);
      ParsedOneMore(subject, sp, list, joined, multi);
      assert mval[..neNum + 1][..neNum] == mval[..neNum];
      if !ok {
        return;
      }
      ghost var r := ReadElement(subject, sp, multi);
      ghost var e := Element(r.kind, r.value, joined);
      assert before == buf[..end][..bp];
      StoredOneMore(before, buf[..end], types, values, list, bp, valueAt, e);
      FlagsOneMore(list, e, mval[..neNum + 1]);
      RecordFlag(mval, neNum, stop);
      types, values, list, joined := types + [bp], values + [valueAt], list + [e], stop == Plus;
      sp, bp, neNum := next, end, neNum + 1;
    }
  }

  /** The next element's flag, which depends on the separator. */
  method RecordFlag(mval: array<int>, n: nat, stop: Stop)
    requires n < mval.Length && (stop == Slash || stop == Plus ==> n + 1 < mval.Length)
    modifies mval
    ensures mval[..n + 1] == old(mval[..n + 1])
    ensures stop == Slash || stop == Plus ==> mval[n + 1] == Flag(stop == Plus)
  {
    if stop == Slash {
      mval[n + 1] := 0;
    } else if stop == Plus {
      mval[n + 1] := -1;
    }
  }

  /** The loop that looks the collected types up and adds the entries. */
  method AssembleName(buf: seq<char>, types: seq<nat>, values: seq<nat>, mval: seq<int>,
                      ghost list: seq<Element>, known: Registry)
    returns (name: Option<Name>)
    requires |types| == |values| == |list| && Stored(buf, types, values, list)
    requires mval == Flags(list)
    ensures name == AssembleFrom(list, 0, [], known)
  {
    var built: Name := [];
    for i := 0 to |types|
      invariant AssembleFrom(list, 0, [], known) == AssembleFrom(list, i, built, known)
    {
      assert Holds(buf, types[i], list[i].kind) && Holds(buf, values[i], list[i].value);
      TextIsHeld(buf, types[i], list[i].kind);
      TextIsHeld(buf, values[i], list[i].value);
      var number := known.number(TextAt(buf, types[i]));
      var value := TextAt(buf, values[i]);
      if number == None || value == "" {
        continue;
      }
      if !known.takes(number.value, value) {
        return None;
      }
      built := AddEntry(built, number.value, value, mval[i]);
    }
    return Some(built);
  }

  // ----- Which relative name an entry ends up in -----

  /**
   The grouping the subject asks for: an entry shares a relative name with the entry before it only
   when every element in between is joined too.  `linked` says that this has held since that entry.
   */
  function GroupFrom(list: seq<Element>, k: nat, name: Name, linked: bool, known: Registry): Option<Name>
    requires k <= |list|
    decreases |list| - k
  {
    if k == |list| then Some(name)
    else
      var chain := linked && list[k].joined;
      if !Kept(list[k], known) then GroupFrom(list, k + 1, name, chain, known)
      else
        var number := known.number(list[k].kind).value;
        if !known.takes(number, list[k].value) then None
        else GroupFrom(list, k + 1, AddEntry(name, number, list[k].value, Flag(chain)), true, known)
  }

  /** The last kept element before position k, or -1. */
  function Nearest(list: seq<Element>, k: nat, known: Registry): (j: int)
    requires k <= |list|
    ensures -1 <= j < k && (j >= 0 ==> Kept(list[j], known))
    ensures forall i | j < i < k :: !Kept(list[i], known)
  {
    if k == 0 then -1 else if Kept(list[k - 1], known) then k - 1 else Nearest(list, k - 1, known)
  }

  predicate AllJoined(list: seq<Element>, from: int, to: int)
    requires -1 <= from && to <= |list|
  {
    forall i | from < i < to :: list[i].joined
  }

  /** A kept, joined element, with a kept one before it, has only joined elements in between. */
  predicate HeadKept(list: seq<Element>, k: nat, known: Registry)
    requires k < |list|
  {
    var j := Nearest(list, k, known);
    Kept(list[k], known) && list[k].joined && j >= 0 ==> AllJoined(list, j, k)
  }

  lemma {:induction false} EntriesStay(list: seq<Element>, k: nat, name: Name, linked: bool, known: Registry)
    requires k <= |list|
    ensures var r := AssembleFrom(list, k, name, known); r.Some? ==> name <= r.value
    ensures var r := GroupFrom(list, k, name, linked, known); r.Some? ==> name <= r.value
    ensures AssembleFrom(list, k, name, known).Some? <==> GroupFrom(list, k, name, linked, known).Some?
    decreases |list| - k
  {
    if k < |list| {
      var e := list[k];
      var chain := linked && e.joined;
      if !Kept(e, known) {
        EntriesStay(list, k + 1, name, chain, known);
      } else {
        var number := known.number(e.kind).value;
        EntriesStay(list, k + 1, AddEntry(name, number, e.value, Flag(e.joined)), true, known);
        EntriesStay(list, k + 1, AddEntry(name, number, e.value, Flag(chain)), true, known);
        SameOutcome(list, k + 1, AddEntry(name, number, e.value, Flag(e.joined)),
                    AddEntry(name, number, e.value, Flag(chain)), known);
      }
    }
  }

  lemma {:induction false} SameOutcome(list: seq<Element>, k: nat, a: Name, b: Name, known: Registry)
    requires k <= |list|
    ensures AssembleFrom(list, k, a, known).Some? <==> AssembleFrom(list, k, b, known).Some?
    decreases |list| - k
  {
    if k < |list| {
      var e := list[k];
      if !Kept(e, known) {
        SameOutcome(list, k + 1, a, b, known);
      } else {
        var number := known.number(e.kind).value;
        SameOutcome(list, k + 1, AddEntry(a, number, e.value, Flag(e.joined)),
                    AddEntry(b, number, e.value, Flag(e.joined)), known);
      }
    }
  }

  lemma {:induction false} GroupingFrom(list: seq<Element>, k: nat, name: Name, linked: bool, known: Registry)
    requires k <= |list|
    requires AssembleFrom(list, k, name, known).Some?
    requires var j := Nearest(list, k, known); (name != [] <==> j >= 0) && (linked <==> j >= 0 && AllJoined(list, j, k))
    ensures AssembleFrom(list, k, name, known) == GroupFrom(list, k, name, linked, known)
            <==> forall i | k <= i < |list| :: HeadKept(list, i, known)
    decreases |list| - k
  {
    if k < |list| {
      var e := list[k];
      var chain := linked && e.joined;
      var j := Nearest(list, k, known);
      assert AllJoined(list, j, k + 1) <==> AllJoined(list, j, k) && (j < k ==> e.joined);
      if !Kept(e, known) {
        GroupingFrom(list, k + 1, name, chain, known);
        assert HeadKept(list, k, known);
      } else {
        var number := known.number(e.kind).value;
        var coded := AddEntry(name, number, e.value, Flag(e.joined));
        var asked := AddEntry(name, number, e.value, Flag(chain));
        if name != [] && e.joined && !chain {
          EntriesStay(list, k + 1, coded, true, known);
          EntriesStay(list, k + 1, asked, true, known);
          assert coded[|name|].rdn != asked[|name|].rdn;
          assert !HeadKept(list, k, known);
        } else {
          assert coded == asked && HeadKept(list, k, known);
          GroupingFrom(list, k + 1, coded, true, known);
        }
      }
    }
  }

  /**
   The joining flag is taken relative to the last entry that was added, so an element joined to a
   skipped one moves into the relative name before it.  The grouping is the one the subject asks
   for exactly when no element is joined, over skipped ones that are not all joined, to a kept one.
   */
  lemma GroupingExactlyWhen(list: seq<Element>, known: Registry)
    requires AssembleFrom(list, 0, [], known).Some?
    ensures AssembleFrom(list, 0, [], known) == GroupFrom(list, 0, [], false, known)
            <==> forall k | 0 <= k < |list| :: HeadKept(list, k, known)
  {
    GroupingFrom(list, 0, [], false, known);
  }

  /** /O=a/X=b+CN=c with X unknown: c was to be in a relative name of its own and joins that of a. */
  lemma SkippedHeadRegroups()
    ensures var list := [Element("O", "a", false), Element("X", "b", false), Element("CN", "c", true)];
            var known := Registry((kind: string) => if kind == "X" then None else Some(|kind|),
                                  (n: int, v: string) => true);
            && Parse("/O=a/X=b+CN=c", true) == Elements(list)
            && AssembleFrom(list, 0, [], known) == Some([Entry(1, "a", 0), Entry(2, "c", 0)])
            && GroupFrom(list, 0, [], false, known) == Some([Entry(1, "a", 0), Entry(2, "c", 1)])
  {
    var list := [Element("O", "a", false), Element("X", "b", false), Element("CN", "c", true)];
    var known := Registry((kind: string) => if kind == "X" then None else Some(|kind|), (n: int, v: string) => true);
    ParsedSubject();
    var first: Name := [Entry(1, "a", 0)];
    assert AddEntry([], 1, "a", 0) == first;
    assert AddEntry(first, 2, "c", -1) == [Entry(1, "a", 0), Entry(2, "c", 0)];
    assert AssembleFrom(list, 2, first, known) == AssembleFrom(list, 3, first + [Entry(2, "c", 0)], known);
    assert AssembleFrom(list, 1, first, known) == AssembleFrom(list, 2, first, known);
    assert AssembleFrom(list, 0, [], known) == AssembleFrom(list, 1, first, known);
    assert AddEntry(first, 2, "c", 0) == [Entry(1, "a", 0), Entry(2, "c", 1)];
    assert GroupFrom(list, 2, first, false, known) == GroupFrom(list, 3, first + [Entry(2, "c", 1)], true, known);
    assert GroupFrom(list, 1, first, true, known) == GroupFrom(list, 2, first, false, known);
    assert GroupFrom(list, 0, [], false, known) == GroupFrom(list, 1, first, true, known);
  }

  lemma ParsedSubject()
    ensures Parse("/O=a/X=b+CN=c", true)
            == Elements([Element("O", "a", false), Element("X", "b", false), Element("CN", "c", true)])
  {
    var s := "/O=a/X=b+CN=c";
    var a, b, c := Element("O", "a", false), Element("X", "b", false), Element("CN", "c", true);
    assert ReadElement(s, 1, true) == Read("O", "a", 5, Slash);
    assert ReadElement(s, 5, true) == Read("X", "b", 9, Plus);
    assert ReadElement(s, 9, true) == Read("CN", "c", 13, End);
    assert ParseFrom(s, 9, [a, b], true, true) == Elements([a, b] + [c]);
    assert ParseFrom(s, 5, [a], false, true) == ParseFrom(s, 9, [a] + [b], true, true);
    assert ParseFrom(s, 1, [], false, true) == ParseFrom(s, 5, [] + [a], false, true);
    assert [a] + [b] == [a, b] && [a, b] + [c] == [a, b, c] && [] + [a] == [a];
  }

  // ----- What the name contains -----

  /** An entry's type and value, whatever relative name it is in. */
  function PairsOf(name: Name): seq<(int, string)> {
    seq(|name|, i requires 0 <= i < |name| => (name[i].number, name[i].value))
  }

  /** The kept elements, in order. */
  function KeptPairs(list: seq<Element>, known: Registry): seq<(int, string)> {
    if list == [] then []
    else
      var last := list[|list| - 1];
      KeptPairs(list[..|list| - 1], known) +
      if Kept(last, known) then [(known.number(last.kind).value, last.value)] else []
  }

  predicate RefusedValue(e: Element, known: Registry) {
    Kept(e, known) && !known.takes(known.number(e.kind).value, e.value)
  }

  lemma {:induction false} AssembledFrom(list: seq<Element>, k: nat, name: Name, known: Registry)
    requires k <= |list| && PairsOf(name) == KeptPairs(list[..k], known)
    ensures match AssembleFrom(list, k, name, known)
            case None => exists i | k <= i < |list| :: RefusedValue(list[i], known)
            case Some(built) =>
              && PairsOf(built) == KeptPairs(list, known)
              && forall i | k <= i < |list| :: !RefusedValue(list[i], known)
    decreases |list| - k
  {
    if k == |list| {
      assert list[..k] == list;
    } else {
      var e := list[k];
      assert list[..k + 1][..k] == list[..k] && list[..k + 1][k] == e;
      if !Kept(e, known) {
        AssembledFrom(list, k + 1, name, known);
      } else if !RefusedValue(e, known) {
        var longer := AddEntry(name, known.number(e.kind).value, e.value, Flag(e.joined));
        assert PairsOf(longer) == PairsOf(name) + [(known.number(e.kind).value, e.value)];
        AssembledFrom(list, k + 1, longer, known);
      }
    }
  }

  /**
   There is no name exactly when some kept value is refused; otherwise its entries are the kept
   elements in order.
   */
  lemma NameHoldsKeptElements(list: seq<Element>, known: Registry)
    ensures match AssembleFrom(list, 0, [], known)
            case None => exists i | 0 <= i < |list| :: RefusedValue(list[i], known)
            case Some(name) =>
              && PairsOf(name) == KeptPairs(list, known)
              && forall i | 0 <= i < |list| :: !RefusedValue(list[i], known)
  {
    assert list[..0] == [];
    AssembledFrom(list, 0, [], known);
  }

  /** No entry has an empty value. */
  lemma {:induction false} NoEmptyValues(list: seq<Element>, k: nat, name: Name, known: Registry)
    requires k <= |list| && forall i | 0 <= i < |name| :: name[i].value != ""
    ensures var r := AssembleFrom(list, k, name, known);
            r.Some? ==> forall i | 0 <= i < |r.value| :: r.value[i].value != ""
    decreases |list| - k
  {
    if k < |list| {
      var e := list[k];
      if !Kept(e, known) {
        NoEmptyValues(list, k + 1, name, known);
      } else {
        var longer := AddEntry(name, known.number(e.kind).value, e.value, Flag(e.joined));
        NoEmptyValues(list, k + 1, longer, known);
      }
    }
  }

  /** /C=/O=x: the empty country is left out. */
  lemma EmptyValueIsSkipped(known: Registry)
    requires known.number("C").Some? && known.number("O").Some?
    requires known.takes(known.number("O").value, "x")
    ensures var list := [Element("C", "", false), Element("O", "x", false)];
            && Parse("/C=/O=x", false) == Elements(list)
            && AssembleFrom(list, 0, [], known) == Some([Entry(known.number("O").value, "x", 0)])
  {
    var s := "/C=/O=x";
    var c, o := Element("C", "", false), Element("O", "x", false);
    var list := [c, o];
    assert ReadElement(s, 1, false) == Read("C", "", 4, Slash);
    assert ReadElement(s, 4, false) == Read("O", "x", 7, End);
    assert ParseFrom(s, 4, [c], false, false) == Elements([c] + [o]);
    assert ParseFrom(s, 1, [], false, false) == ParseFrom(s, 4, [] + [c], false, false);
    assert [c] + [o] == list && [] + [c] == [c];
    assert !Kept(c, known) && Kept(o, known);
    var number := known.number("O").value;
    var built: Name := [Entry(number, "x", 0)];
    assert AddEntry([], number, "x", Flag(false)) == built;
    assert AssembleFrom(list, 2, built, known) == Some(built);
    assert AssembleFrom(list, 1, [], known) == AssembleFrom(list, 2, built, known);
    assert AssembleFrom(list, 0, [], known) == AssembleFrom(list, 1, [], known);
  }
}
