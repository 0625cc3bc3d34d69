/**
 The grammar parse_name accepts: a subject written as /type0=value0/type1=value1+type2=value2, where a backslash takes
 the next character literally and `+` joins an element to the one before it when multi-valued
 names are enabled.
 */
module SubjectGrammar {
  import opened CStrings

  datatype Element = Element(kind: string, value: string, joined: bool)

  datatype Error = NoLeadingSlash | TrailingEscape | UnfinishedType

  datatype Parsed = Elements(list: seq<Element>) | Malformed(error: Error)

  // ----- The grammar -----

  /** What ends a type or a value: an equals sign, a separator, or the end of the string. */
  datatype Stop = Equals | Slash | Plus | End

  datatype Piece = Piece(text: string, next: nat, stop: Stop) | BadEscape

  function ReadType(s: string, p: nat, sofar: string): (r: Piece)
    requires p <= |s|
    ensures r.Piece? ==> p <= r.next <= |s|
    ensures r.Piece? && r.next < |s| ==> p < r.next && r.stop == Equals
    decreases |s| - p
  {
    if p == |s| then Piece(sofar, p, End)
    else if s[p] == '\\' then
      if p + 1 == |s| then BadEscape else ReadType(s, p + 2, sofar + [s[p + 1]])
    else if s[p] == '=' then Piece(sofar, p + 1, Equals)
    else ReadType(s, p + 1, sofar + [s[p]])
  }

  function ReadValue(s: string, p: nat, sofar: string, multi: bool): (r: Piece)
    requires p <= |s|
    ensures r.Piece? ==> p <= r.next <= |s| && (p < |s| ==> p < r.next)
    ensures r.Piece? && r.next < |s| ==> r.stop == Slash || r.stop == Plus
    decreases |s| - p
  {
    if p == |s| then Piece(sofar, p, End)
    else if s[p] == '\\' then
      if p + 1 == |s| then BadEscape else ReadValue(s, p + 2, sofar + [s[p + 1]], multi)
    else if s[p] == '/' then Piece(sofar, p + 1, Slash)
    else if s[p] == '+' && multi then Piece(sofar, p + 1, Plus)
    else ReadValue(s, p + 1, sofar + [s[p]], multi)
  }

  datatype Read = Read(kind: string, value: string, next: nat, stop: Stop) | Refused(error: Error)

  /** One element: a type, an equals sign that is not the last character, and a value. */
  function ReadElement(s: string, p: nat, multi: bool): (r: Read)
    requires p < |s|
    ensures r.Read? ==> p + 2 <= r.next <= |s|
    ensures r.Read? && r.next < |s| ==> r.stop == Slash || r.stop == Plus
  {
    var kind := ReadType(s, p, "");
    if kind.BadEscape? then Refused(TrailingEscape)
    else if kind.next == |s| then Refused(UnfinishedType)
    else
      var value := ReadValue(s, kind.next, "", multi);
      if value.BadEscape? then Refused(TrailingEscape)
      else Read(kind.text, value.text, value.next, value.stop)
  }

  function ParseFrom(s: string, p: nat, sofar: seq<Element>, joined: bool, multi: bool): Parsed
    requires p <= |s|
    decreases |s| - p
  {
    if p == |s| then Elements(sofar)
    else
      match ReadElement(s, p, multi)
      case Refused(error) => Malformed(error)
      case Read(kind, value, next, stop) =>
        ParseFrom(s, next, sofar + [Element(kind, value, joined)], stop == Plus, multi)
  }

  function Parse(s: string, multi: bool): Parsed {
    if s == "" || s[0] != '/' then Malformed(NoLeadingSlash) else ParseFrom(s, 1, [], false, multi)
  }

  // ----- The printer -----

  function Quote(text: string, quoted: set<char>): string {
    if text == "" then ""
    else (if text[0] in quoted then ['\\', text[0]] else [text[0]]) + Quote(text[1..], quoted)
  }

  /** Which characters the printer escapes; it may escape more than it has to. */
  datatype Quoting = Quoting(inType: set<char>, inValue: set<char>)

  predicate Enough(q: Quoting, multi: bool) {
    && {'\\', '='} <= q.inType
    && {'\\', '/'} <= q.inValue
    && (multi ==> '+' in q.inValue)
  }

  function PrintElement(e: Element, q: Quoting): string {
    Quote(e.kind, q.inType) + "=" + Quote(e.value, q.inValue)
  }

  /** Elements k and up, each after the first with its separator. */
  function PrintFrom(list: seq<Element>, k: nat, q: Quoting): string
    requires k <= |list|
    decreases |list| - k
  {
    if k == |list| then ""
    else if k + 1 == |list| then PrintElement(list[k], q)
    else PrintElement(list[k], q) + [if list[k + 1].joined then '+' else '/'] + PrintFrom(list, k + 1, q)
  }

  function Print(list: seq<Element>, q: Quoting): string {
    "/" + PrintFrom(list, 0, q)
  }

  /** Only later elements can be joined, and only when multi-valued names are enabled. */
  predicate Printable(list: seq<Element>, multi: bool) {
    forall k | 0 <= k < |list| :: list[k].joined ==> k > 0 && multi
  }

  // ----- Parsing undoes printing -----

  predicate At(s: string, p: nat, text: string) {
    p + |text| <= |s| && forall i | 0 <= i < |text| :: s[p + i] == text[i]
  }

  lemma AtSplits(s: string, p: nat, a: string, b: string)
    requires At(s, p, a + b)
    ensures At(s, p, a) && At(s, p + |a|, b)
  {
    var ab := a + b;
    assert forall i | 0 <= i < |a| :: ab[i] == a[i];
    assert forall i | 0 <= i < |b| :: ab[|a| + i] == b[i];
  }

  lemma QuotedHead(s: string, p: nat, text: string, quoted: set<char>)
    requires text != "" && '\\' in quoted && At(s, p, Quote(text, quoted))
    ensures var step := if text[0] in quoted then 2 else 1;
            && p + step <= |s|
            && |Quote(text, quoted)| == step + |Quote(text[1..], quoted)|
            && At(s, p + step, Quote(text[1..], quoted))
            && s[p + step - 1] == text[0]
            && (if text[0] in quoted then s[p] == '\\' else text[0] != '\\')
  {
    var front := if text[0] in quoted then ['\\', text[0]] else [text[0]];
    AtSplits(s, p, front, Quote(text[1..], quoted));
    assert s[p + 0] == front[0] && s[p + (|front| - 1)] == front[|front| - 1];
  }

  lemma {:induction false} TypeRoundTrip(s: string, p: nat, sofar: string, text: string, quoted: set<char>)
    requires {'\\', '='} <= quoted
    requires At(s, p, Quote(text, quoted))
    requires p + |Quote(text, quoted)| < |s| && s[p + |Quote(text, quoted)|] == '='
    ensures ReadType(s, p, sofar) == Piece(sofar + text, p + |Quote(text, quoted)| + 1, Equals)
    decreases |text|
  {
    if text == "" {
      assert sofar + text == sofar;
    } else {
      QuotedHead(s, p, text, quoted);
      var step := if text[0] in quoted then 2 else 1;
      TypeRoundTrip(s, p + step, sofar + [text[0]], text[1..], quoted);
      assert sofar + [text[0]] + text[1..] == sofar + text;
    }
  }

  lemma {:induction false} ValueRoundTrip(s: string, p: nat, sofar: string, text: string, quoted: set<char>,
                                          multi: bool)
    requires {'\\', '/'} <= quoted && (multi ==> '+' in quoted)
    requires At(s, p, Quote(text, quoted))
    ensures ReadValue(s, p, sofar, multi) == ReadValue(s, p + |Quote(text, quoted)|, sofar + text, multi)
    decreases |text|
  {
    if text == "" {
      assert sofar + text == sofar;
    } else {
      QuotedHead(s, p, text, quoted);
      var step := if text[0] in quoted then 2 else 1;
      ValueRoundTrip(s, p + step, sofar + [text[0]], text[1..], quoted, multi);
      assert sofar + [text[0]] + text[1..] == sofar + text;
    }
  }

  lemma AtSplitsAround(s: string, p: nat, a: string, c: char, b: string)
    requires At(s, p, a + [c] + b)
    ensures At(s, p, a) && p + |a| < |s| && s[p + |a|] == c && At(s, p + |a| + 1, b)
  {
    AtSplits(s, p, a + [c], b);
    AtSplits(s, p, a, [c]);
    assert s[p + |a| + 0] == [c][0];
  }

  lemma QuoteEmpty(text: string, quoted: set<char>)
    ensures Quote(text, quoted) == "" <==> text == ""
  {
  }

  lemma PiecesRoundTrip(s: string, p: nat, e: Element, q: Quoting, multi: bool)
    requires Enough(q, multi) && At(s, p, PrintElement(e, q))
    ensures var v, end := p + |Quote(e.kind, q.inType)| + 1, p + |PrintElement(e, q)|;
            && p < v <= end <= |s| && (v == end <==> e.value == "")
            && ReadType(s, p, "") == Piece(e.kind, v, Equals)
            && ReadValue(s, v, "", multi) == ReadValue(s, end, e.value, multi)
  {
    var kind, value := Quote(e.kind, q.inType), Quote(e.value, q.inValue);
    AtSplitsAround(s, p, kind, '=', value);
    TypeRoundTrip(s, p, "", e.kind, q.inType);
    ValueRoundTrip(s, p + |kind| + 1, "", e.value, q.inValue, multi);
    assert "" + e.kind == e.kind && "" + e.value == e.value;
    QuoteEmpty(e.value, q.inValue);
  }

  /** A printed element is read back when the string ends behind it or a separator follows. */
  lemma ElementRoundTrip(s: string, p: nat, e: Element, q: Quoting, multi: bool)
    requires Enough(q, multi) && At(s, p, PrintElement(e, q))
    requires var end := p + |PrintElement(e, q)|;
             end < |s| ==> s[end] == '/' || (s[end] == '+' && multi)
    ensures var end := p + |PrintElement(e, q)|;
            p < |s| &&
            ReadElement(s, p, multi)
            == if end == |s| then (if e.value == "" then Refused(UnfinishedType) else Read(e.kind, e.value, end, End))
               else Read(e.kind, e.value, end + 1, if s[end] == '/' then Slash else Plus)
  {
    PiecesRoundTrip(s, p, e, q, multi);
  }

  lemma PrintedTail(s: string, p: nat, list: seq<Element>, k: nat, q: Quoting)
    requires k + 1 < |list|
    requires At(s, p, PrintFrom(list, k, q)) && p + |PrintFrom(list, k, q)| == |s|
    ensures var end := p + |PrintElement(list[k], q)|;
            && At(s, p, PrintElement(list[k], q)) && end < |s|
            && s[end] == (if list[k + 1].joined then '+' else '/')
            && At(s, end + 1, PrintFrom(list, k + 1, q))
            && end + 1 + |PrintFrom(list, k + 1, q)| == |s|
  {
    AtSplitsAround(s, p, PrintElement(list[k], q), if list[k + 1].joined then '+' else '/', PrintFrom(list, k + 1, q));
  }

  lemma {:induction false} ListRoundTrip(s: string, p: nat, list: seq<Element>, k: nat, q: Quoting, multi: bool)
    requires Enough(q, multi) && Printable(list, multi)
    requires k < |list| && At(s, p, PrintFrom(list, k, q)) && p + |PrintFrom(list, k, q)| == |s|
    ensures ParseFrom(s, p, list[..k], list[k].joined, multi)
            == if list[|list| - 1].value == "" then Malformed(UnfinishedType) else Elements(list)
    decreases |list| - k
  {
    var sofar, e := list[..k], list[k];
    if k + 1 == |list| {
      assert sofar + [e] == list;
      ElementRoundTrip(s, p, e, q, multi);
    } else {
      assert sofar + [e] == list[..k + 1];
      PrintedTail(s, p, list, k, q);
      ElementRoundTrip(s, p, e, q, multi);
      ListRoundTrip(s, p + |PrintElement(e, q)| + 1, list, k + 1, q, multi);
    }
  }

  /**
   Parsing a printed list gives the list back exactly when its last value is not empty; a list
   that ends in an empty value is refused as unfinished.  With multi-valued names off, `+` needs
   no escape.
   */
  lemma ParseUndoesPrint(list: seq<Element>, q: Quoting, multi: bool)
    requires Enough(q, multi) && Printable(list, multi)
    ensures Parse(Print(list, q), multi) == Elements(list)
            <==> list == [] || list[|list| - 1].value != ""
    ensures list != [] && list[|list| - 1].value == "" ==>
              Parse(Print(list, q), multi) == Malformed(UnfinishedType)
  {
    var s := Print(list, q);
    assert At(s, 1, PrintFrom(list, 0, q));
    if list != [] {
      ListRoundTrip(s, 1, list, 0, q, multi);
    }
  }

  /** With multi-valued names off a plus sign belongs to the value, and otherwise it joins. */
  lemma PlusExample()
    ensures Parse("/U=1+CN=x", false) == Elements([Element("U", "1+CN=x", false)])
    ensures Parse("/U=1+CN=x", true) == Elements([Element("U", "1", false), Element("CN", "x", true)])
  {
    var s := "/U=1+CN=x";
    assert ReadElement(s, 1, false) == Read("U", "1+CN=x", 9, End);
    assert ParseFrom(s, 1, [], false, false) == Elements([] + [Element("U", "1+CN=x", false)]);
    assert ReadElement(s, 1, true) == Read("U", "1", 5, Plus);
    assert ReadElement(s, 5, true) == Read("CN", "x", 9, End);
    var u, cn := Element("U", "1", false), Element("CN", "x", true);
    assert ParseFrom(s, 5, [u], true, true) == Elements([u] + [cn]);
    assert ParseFrom(s, 1, [], false, true) == ParseFrom(s, 5, [] + [u], true, true);
    assert [u] + [cn] == [u, cn] && [] + [u] == [u];
  }

  /** Subjects that are refused: without a slash, an equals sign or a value at the end, or with half an escape. */
  lemma RefusedSubjects(multi: bool)
    ensures Parse("CN=x", multi) == Malformed(NoLeadingSlash) && Parse("", multi) == Malformed(NoLeadingSlash)
    ensures Parse("/CN", multi) == Malformed(UnfinishedType)
    ensures Parse("/C=", multi) == Malformed(UnfinishedType)
    ensures Parse("/C=x\\", multi) == Malformed(TrailingEscape)
    ensures Parse("/C\\", multi) == Malformed(TrailingEscape)
  {
    assert ReadElement("/CN", 1, multi) == Refused(UnfinishedType);
    assert ReadElement("/C=", 1, multi) == Refused(UnfinishedType);
    assert ReadElement("/C=x\\", 1, multi) == Refused(TrailingEscape);
    assert ReadElement("/C\\", 1, multi) == Refused(TrailingEscape);
  }
}
