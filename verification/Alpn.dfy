/**
 The two encoders of an application-protocol list.  Both turn a comma-separated string into the
 length-prefixed wire form of section 3.1 of RFC 7301; one walks a write pointer forward, the
 other copies bytes one place to the right and fills in each length byte afterwards.
 */
module Alpn {
  import opened Options
  import opened Bytes

  const COMMA: Byte := 44
  const MAX_ITEM := 255
  const MAX_INPUT := 65535

  type Items = seq<seq<Byte>>

  // ----- The list a string stands for, and the bytes that stand for a list -----

  /** strchr for a comma from position p: the first one, or the length when there is none. */
  function Find(s: seq<Byte>, p: nat): (i: nat)
    requires p <= |s|
    ensures p <= i <= |s| && (i < |s| ==> s[i] == COMMA)
    ensures forall k | p <= k < i :: s[k] != COMMA
    decreases |s| - p
  {
    if p == |s| || s[p] == COMMA then p else Find(s, p + 1)
  }

  /** The items between the commas of s, from position p on. */
  function Split(s: seq<Byte>, p: nat): (items: Items)
    requires p <= |s|
    ensures items != []
    decreases |s| - p
  {
    var i := Find(s, p);
    if i == |s| then [s[p..]] else [s[p..i]] + Split(s, i + 1)
  }

  function Join(items: Items): (s: seq<Byte>)
    requires items != []
  {
    if |items| == 1 then items[0] else items[0] + [COMMA] + Join(items[1..])
  }

  predicate Fits(items: Items) {
    items == [] || (|items[0]| <= MAX_ITEM && Fits(items[1..]))
  }

  function Frame(items: Items): (wire: seq<Byte>)
    requires Fits(items)
  {
    if items == [] then [] else [|items[0]| as Byte] + items[0] + Frame(items[1..])
  }

  function Unframe(wire: seq<Byte>): (items: Option<Items>)
    decreases |wire|
  {
    if wire == [] then Some([])
    else
      var length: nat := wire[0];
      if |wire| < 1 + length then None
      else
        match Unframe(wire[1 + length..])
        case None => None
        case Some(rest) => Some([wire[1..1 + length]] + rest)
  }

  /** What both encoders compute, item by item as they meet them. */
  function Wire(s: seq<Byte>, p: nat): (wire: Option<seq<Byte>>)
    requires p <= |s|
    decreases |s| - p
  {
    var i := Find(s, p);
    if i - p > MAX_ITEM then None
    else
      var item := [(i - p) as Byte] + s[p..i];
      if i == |s| then Some(item) else After(item, Wire(s, i + 1))
  }

  function After(front: seq<Byte>, wire: Option<seq<Byte>>): Option<seq<Byte>> {
    if wire.Some? then Some(front + wire.value) else None
  }

  function Encoded(s: seq<Byte>): Option<seq<Byte>> {
    if |s| < MAX_INPUT then Wire(s, 0) else None
  }

  /** The wire form section 3.1 of RFC 7301 asks for: at most 2^16-1 bytes and no empty name. */
  predicate ConformsToRfc(wire: seq<Byte>) {
    && 2 <= |wire| <= 65535
    && var items := Unframe(wire);
    && items.Some?
    && [] !in items.value
  }

  /** Position k lies between two separators, the ends p and |s| counting as separators. */
  predicate EmptyNameAt(s: seq<Byte>, p: nat, k: nat)
    requires p <= k <= |s|
  {
    (k == p || s[k - 1] == COMMA) && (k == |s| || s[k] == COMMA)
  }

  // ----- The encoders -----

  /** The items before position p have been turned into `done`. */
  ghost predicate EncodedSoFar(s: seq<Byte>, p: nat, done: seq<Byte>)
    requires p <= |s|
  {
    Wire(s, 0) == After(done, Wire(s, p))
  }

  lemma NextItem(s: seq<Byte>, p: nat, done: seq<Byte>, end: nat)
    requires p <= end <= |s| && EncodedSoFar(s, p, done)
    requires (forall k | p <= k < end :: s[k] != COMMA) && (end < |s| ==> s[end] == COMMA)
    ensures end - p > MAX_ITEM ==> Wire(s, 0) == None
    ensures end - p <= MAX_ITEM && end < |s| ==>
              EncodedSoFar(s, end + 1, done + ([(end - p) as Byte] + s[p..end]))
    ensures end - p <= MAX_ITEM && end == |s| ==>
              Wire(s, 0) == Some(done + ([(end - p) as Byte] + s[p..end]))
  {
    assert Find(s, p) == end;
    if end - p <= MAX_ITEM && end < |s| {
      AfterAfter(done, [(end - p) as Byte] + s[p..end], Wire(s, end + 1));
    }
  }

  lemma AfterAfter(a: seq<Byte>, b: seq<Byte>, wire: Option<seq<Byte>>)
    ensures After(a, After(b, wire)) == After(a + b, wire)
  {
    assert wire.Some? ==> a + (b + wire.value) == a + b + wire.value;
  }

  /** serf_ssl_negotiate_protocol: the write pointer moves with the read pointer. */
  method EncodeAdvancing(protocols: seq<Byte>) returns (wire: Option<seq<Byte>>)
    requires 0 !in protocols
    ensures wire == Encoded(protocols)
  {
    var rawLength := |protocols| + 1;
    if rawLength >= MAX_INPUT + 1 {
      return None;
    }
    var rawHeader := new Byte[rawLength];
    var p, at := 0, 0;
    var next := Find(protocols, p);
    StartOfList(protocols);
    while next < |protocols|
      invariant 0 <= p == at <= |protocols| && next == Find(protocols, p)
      invariant EncodedSoFar(protocols, p, rawHeader[..at])
      decreases |protocols| - p
    {
      NextItem(protocols, p, rawHeader[..at], next);
      if next - p > MAX_ITEM {
        return None;
      }
      at := AppendItem(rawHeader, at, protocols[p..next]);
      p := next + 1;
      next := Find(protocols, p);
    }
    NextItem(protocols, p, rawHeader[..at], next);
    if next - p > MAX_ITEM {
      return None;
    }
    at := AppendItem(rawHeader, at, protocols[p..next]);
    assert rawHeader[..at] == rawHeader[..];
    return Some(rawHeader[..]);
  }

  /** A length byte, then a memcpy of the item; the pointer ends behind both. */
  method AppendItem(raw: array<Byte>, at: nat, item: seq<Byte>) returns (end: nat)
    requires |item| <= MAX_ITEM && at + 1 + |item| <= raw.Length
    modifies raw
    ensures end == at + 1 + |item|
    ensures raw[..end] == old(raw[..at]) + ([|item| as Byte] + item)
  {
    raw[at] := |item|;
    for k := 0 to |item|
      invariant raw[..at + 1 + k] == old(raw[..at]) + ([|item| as Byte] + item[..k])
    {
      raw[at + 1 + k] := item[k];
    }
    end := at + 1 + |item|;
  }

  /** The length byte in front of an item that lies in place. */
  method FillLength(out: array<Byte>, start: nat, item: seq<Byte>)
    requires |item| <= MAX_ITEM && start + 1 + |item| <= out.Length
    requires out[start + 1..start + 1 + |item|] == item
    modifies out
    ensures out[..start + 1 + |item|] == old(out[..start]) + ([|item| as Byte] + item)
  {
    out[start] := |item|;
    assert out[..start + 1 + |item|] == out[..start] + ([out[start]] + out[start + 1..start + 1 + |item|]);
  }

  /** next_protos_parse: one pass; a length byte is filled in when its item ends. */
  method EncodeBackpatching(protocols: seq<Byte>) returns (wire: Option<seq<Byte>>)
    requires 0 !in protocols
    ensures wire == Encoded(protocols)
  {
    var length := |protocols|;
    if length >= MAX_INPUT {
      return None;
    }
    var out := new Byte[length + 1];
    var start := 0;
    StartOfList(protocols);
    for i := 0 to length + 1
      invariant if i <= length then start <= i else start == i
      invariant forall k | start <= k < i :: protocols[k] != COMMA && out[k + 1] == protocols[k]
      invariant i <= length ==> EncodedSoFar(protocols, start, out[..start])
      invariant i > length ==> Wire(protocols, 0) == Some(out[..])
    {
      if i == length || protocols[i] == COMMA {
        NextItem(protocols, start, out[..start], i);
        if i - start > MAX_ITEM {
          return None;
        }
        FillLength(out, start, protocols[start..i]);
        assert i == length ==> out[..] == out[..i + 1];
        start := i + 1;
      } else {
        out[i + 1] := protocols[i];
      }
    }
    return Some(out[..]);
  }

  lemma StartOfList(s: seq<Byte>)
    ensures EncodedSoFar(s, 0, [])
  {
    assert Wire(s, 0).Some? ==> [] + Wire(s, 0).value == Wire(s, 0).value;
  }

  // ----- What the encoded bytes mean -----

  /** The encoders accept exactly the short strings whose items all fit, and frame those items. */
  lemma {:induction false} WireFramesItems(s: seq<Byte>, p: nat)
    requires p <= |s|
    ensures Wire(s, p) == if Fits(Split(s, p)) then Some(Frame(Split(s, p))) else None
    ensures Wire(s, p).Some? ==> |Wire(s, p).value| == |s| - p + 1
    decreases |s| - p
  {
    var i, items := Find(s, p), Split(s, p);
    if i == |s| {
      assert s[p..i] == s[p..];
      FramesOf(items, s[p..], []);
    } else {
      WireFramesItems(s, i + 1);
      FramesOf(items, s[p..i], Split(s, i + 1));
    }
  }

  lemma FramesOf(items: Items, first: seq<Byte>, rest: Items)
    requires items == [first] + rest
    ensures Fits(items) <==> |first| <= MAX_ITEM && Fits(rest)
    ensures Fits(items) ==> Frame(items) == [|first| as Byte] + first + Frame(rest)
    ensures Fits(items) && rest == [] ==> Frame(items) == [|first| as Byte] + first
  {
    assert items[1..] == rest;
  }

  lemma {:induction false} JoinUndoesSplit(s: seq<Byte>, p: nat)
    requires p <= |s|
    ensures Join(Split(s, p)) == s[p..]
    decreases |s| - p
  {
    var i := Find(s, p);
    if i < |s| {
      JoinUndoesSplit(s, i + 1);
      assert Split(s, p)[1..] == Split(s, i + 1);
      assert s[p..] == s[p..i] + [COMMA] + s[i + 1..];
    }
  }

  lemma FirstOfJoined(items: Items, s: seq<Byte>, p: nat)
    requires items != [] && p <= |s| && s[p..] == Join(items)
    ensures p + |items[0]| <= |s| && s[p..p + |items[0]|] == items[0]
    ensures |items| == 1 ==> p + |items[0]| == |s|
    ensures |items| > 1 ==>
              var i := p + |items[0]|;
              i < |s| && s[i] == COMMA && s[i + 1..] == Join(items[1..])
  {
    var i := p + |items[0]|;
    assert s[p..i] == s[p..][..|items[0]|];
    if |items| > 1 {
      assert s[i] == s[p..][|items[0]|];
      assert s[i + 1..] == s[p..][|items[0]| + 1..];
    }
  }

  lemma {:induction false} SplitUndoesJoin(items: Items, s: seq<Byte>, p: nat)
    requires items != [] && (forall item | item in items :: COMMA !in item)
    requires p <= |s| && s[p..] == Join(items)
    ensures Split(s, p) == items
  {
    FirstOfJoined(items, s, p);
    var i := p + |items[0]|;
    assert items[0] in items;
    assert forall k | p <= k < i :: s[k] == s[p..i][k - p];
    assert Find(s, p) == i;
    if |items| > 1 {
      SplitUndoesJoin(items[1..], s, i + 1);
      assert items == [items[0]] + items[1..];
    } else {
      assert s[p..i] == s[p..];
    }
  }

  lemma {:induction false} UnframeUndoesFrame(items: Items)
    requires Fits(items)
    ensures Unframe(Frame(items)) == Some(items)
  {
    if items != [] {
      var wire := Frame(items);
      assert wire[1..1 + wire[0] as int] == items[0];
      assert wire[1 + wire[0] as int..] == Frame(items[1..]);
      UnframeUndoesFrame(items[1..]);
      assert items == [items[0]] + items[1..];
    }
  }

  /** The result is one byte longer than the string and decodes to the items between its commas. */
  lemma WireRoundTrip(s: seq<Byte>)
    requires Encoded(s).Some?
    ensures |Encoded(s).value| == |s| + 1
    ensures Unframe(Encoded(s).value) == Some(Split(s, 0))
    ensures Join(Unframe(Encoded(s).value).value) == s
  {
    WireFramesItems(s, 0);
    UnframeUndoesFrame(Split(s, 0));
    JoinUndoesSplit(s, 0);
  }

  /** A string is refused exactly when it is too long or one of its items is. */
  lemma RefusedExactlyWhen(s: seq<Byte>)
    ensures Encoded(s) == None <==> |s| >= 65535 || exists item | item in Split(s, 0) :: |item| > 255
  {
    WireFramesItems(s, 0);
    FitsMeans(Split(s, 0));
  }

  lemma {:induction false} FitsMeans(items: Items)
    ensures Fits(items) <==> forall item | item in items :: |item| <= MAX_ITEM
  {
    if items != [] {
      FitsMeans(items[1..]);
      assert items == [items[0]] + items[1..];
    }
  }

  /** Every list of comma-free names that fits is sent by writing it with commas. */
  lemma EveryListIsEncoded(items: Items)
    requires items != [] && Fits(items) && (forall item | item in items :: COMMA !in item)
    requires |Join(items)| < MAX_INPUT
    ensures Encoded(Join(items)) == Some(Frame(items))
  {
    SplitUndoesJoin(items, Join(items), 0);
    WireFramesItems(Join(items), 0);
  }

  lemma {:induction false} EmptyNames(s: seq<Byte>, p: nat)
    requires p <= |s|
    ensures [] in Split(s, p) <==> exists k | p <= k <= |s| :: EmptyNameAt(s, p, k)
    decreases |s| - p
  {
    var i := Find(s, p);
    if i == p {
      assert EmptyNameAt(s, p, p);
      assert Split(s, p)[0] == [];
    } else if i == |s| {
      assert Split(s, p) == [s[p..]];
      assert forall k | p <= k <= |s| :: !EmptyNameAt(s, p, k);
    } else {
      EmptyNames(s, i + 1);
      assert [] in Split(s, p) <==> [] in Split(s, i + 1);
      assert forall k | p <= k <= i :: !EmptyNameAt(s, p, k);
      var q := i + 1;
      if k :| q <= k <= |s| && EmptyNameAt(s, q, k) {
        assert EmptyNameAt(s, p, k);
      }
      if k :| p <= k <= |s| && EmptyNameAt(s, p, k) {
        assert EmptyNameAt(s, q, k);
      }
    }
  }

  /**
   Both encoders let empty names through, which section 3.1 of RFC 7301 forbids: the result
   conforms exactly when no separator or end of the string is next to another one.
   */
  lemma ConformsExactlyWhen(s: seq<Byte>)
    requires Encoded(s).Some?
    ensures ConformsToRfc(Encoded(s).value) <==> forall k | 0 <= k <= |s| :: !EmptyNameAt(s, 0, k)
  {
    WireRoundTrip(s);
    EmptyNames(s, 0);
    if s == [] {
      assert EmptyNameAt(s, 0, 0);
    }
  }

  /** "a,,b" is encoded as 1 a 0 1 b, with an empty name in the middle. */
  lemma EmptyNameIsLetThrough(a: Byte, b: Byte)
    requires a != COMMA && b != COMMA
    ensures var wire: seq<Byte> := [1, a, 0, 1, b];
            Encoded([a, COMMA, COMMA, b]) == Some(wire) && !ConformsToRfc(wire)
  {
    var s := [a, COMMA, COMMA, b];
    var last: seq<Byte>, rest: seq<Byte>, wire: seq<Byte> := [1, b], [0, 1, b], [1, a, 0, 1, b];
    assert Find(s, 3) == 4 && Find(s, 2) == 2 && Find(s, 1) == 1 && Find(s, 0) == 1;
    assert s[3..4] == [b] && s[2..2] == [] && s[0..1] == [a];
    assert [1 as Byte] + s[3..4] == last && [0 as Byte] + s[2..2] == [0];
    assert Wire(s, 3) == Some(last);
    assert Wire(s, 2) == After([0], Wire(s, 3)) && [0] + last == rest;
    assert Wire(s, 0) == After([1] + [a], Wire(s, 2)) && [1] + [a] + rest == wire;
    ConformsExactlyWhen(s);
    assert EmptyNameAt(s, 0, 2);
  }
}
