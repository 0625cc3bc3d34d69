/**
 copy_extensions: merging the extensions a request asks for into the ones a certificate already has.
 */
module Extensions {

  datatype Ext = Ext(obj: nat, critical: bool, data: string)

  datatype CopyMode = CopyNone | CopyAdd | CopyAll

  predicate HasType(exts: seq<Ext>, obj: nat) {
    exists i | 0 <= i < |exts| :: exts[i].obj == obj
  }

  // ----- What each mode promises -----

  /** Copy mode: the first requested extension of each type the certificate does not have. */
  function FirstOfNew(own: seq<Ext>, asked: seq<Ext>): seq<Ext> {
    if asked == [] then []
    else
      var front, last := asked[..|asked| - 1], asked[|asked| - 1];
      if HasType(own, last.obj) || HasType(front, last.obj) then FirstOfNew(own, front)
      else FirstOfNew(own, front) + [last]
  }

  /** The last requested extension of each type, in the order of those last ones. */
  function LastOfEach(asked: seq<Ext>): seq<Ext> {
    if asked == [] then []
    else if HasType(asked[1..], asked[0].obj) then LastOfEach(asked[1..])
    else [asked[0]] + LastOfEach(asked[1..])
  }

  function WithoutType(exts: seq<Ext>, obj: nat): seq<Ext> {
    if exts == [] then []
    else (if exts[0].obj == obj then [] else [exts[0]]) + WithoutType(exts[1..], obj)
  }

  /** The certificate's own extensions of types nobody asked for. */
  function Unasked(own: seq<Ext>, asked: seq<Ext>): seq<Ext> {
    if own == [] then []
    else (if HasType(asked, own[0].obj) then [] else [own[0]]) + Unasked(own[1..], asked)
  }

  function Merged(own: seq<Ext>, asked: seq<Ext>, mode: CopyMode): seq<Ext> {
    match mode
    case CopyNone => own
    case CopyAdd => own + FirstOfNew(own, asked)
    case CopyAll => Unasked(own, asked) + LastOfEach(asked)
  }

  // ----- The code -----

  /** X509_get_ext_by_OBJ from the start: the first extension of a type, or -1. */
  function IndexByObj(exts: seq<Ext>, obj: nat): (idx: int)
    ensures idx == -1 <==> !HasType(exts, obj)
    ensures idx != -1 ==> 0 <= idx < |exts| && exts[idx].obj == obj
    ensures forall i | 0 <= i < (if idx == -1 then |exts| else idx) :: exts[i].obj != obj
  {
    if exts == [] then -1
    else if exts[0].obj == obj then 0
    else
      var rest := IndexByObj(exts[1..], obj);
      assert HasType(exts, obj) <==> HasType(exts[1..], obj) by {
        if i :| 0 <= i < |exts| && exts[i].obj == obj {
          assert exts[1..][i - 1].obj == obj;
        }
        if i :| 0 <= i < |exts[1..]| && exts[1..][i].obj == obj {
          assert exts[i + 1].obj == obj;
        }
      }
      assert forall i | 0 < i < |exts| :: exts[i] == exts[1..][i - 1];
      if rest == -1 then -1 else rest + 1
  }

  class Certificate {
    var extensions: seq<Ext>

    /** The do-while loop that deletes every extension of one type. */
    method DeleteType(obj: nat, first: nat)
      requires first < |extensions| && IndexByObj(extensions, obj) == first
      modifies this
      ensures extensions == WithoutType(old(extensions), obj)
    {
      var idx: int := first;
      while idx != -1
        invariant idx == IndexByObj(extensions, obj)
        invariant WithoutType(extensions, obj) == WithoutType(old(extensions), obj)
        decreases |extensions|
      {
        DeleteOne(extensions, idx, obj);
        extensions := extensions[..idx] + extensions[idx + 1..];
        idx := IndexByObj(extensions, obj);
      }
      NothingToDelete(extensions, obj);
    }

    /** One requested extension, in a mode that copies. */
    method CopyOne(ext: Ext, mode: CopyMode)
      requires mode != CopyNone
      modifies this
      ensures extensions ==
              if mode == CopyAll then WithoutType(old(extensions), ext.obj) + [ext]
              else if HasType(old(extensions), ext.obj) then old(extensions)
              else old(extensions) + [ext]
    {
      var idx := IndexByObj(extensions, ext.obj);
      if idx != -1 {
        if mode == CopyAdd {
          return;
        }
        DeleteType(ext.obj, idx);
      } else {
        NothingToDelete(extensions, ext.obj);
      }
      extensions := extensions + [ext];
    }

    method CopyExtensions(asked: seq<Ext>, mode: CopyMode)
      modifies this
      ensures extensions == Merged(old(extensions), asked, mode)
      ensures mode == CopyNone ==> extensions == old(extensions)
    {
      if mode == CopyNone {
        return;
      }
      ghost var own := extensions;
      UnaskedNone(own);
      for i := 0 to |asked|
        invariant extensions == Merged(own, asked[..i], mode)
      {
        assert asked[..i + 1] == asked[..i] + [asked[i]];
        MergedOneMoreAll(own, asked[..i], asked[i]);
        MergedOneMoreAdd(own, asked[..i], asked[i]);
        CopyOne(asked[i], mode);
      }
      assert asked[..|asked|] == asked;
    }
  }

  // ----- Lemmas -----

  lemma HasTypeAppend(a: seq<Ext>, b: seq<Ext>, obj: nat)
    ensures HasType(a + b, obj) <==> HasType(a, obj) || HasType(b, obj)
  {
    if i :| 0 <= i < |a| && a[i].obj == obj {
      assert (a + b)[i].obj == obj;
    }
    if i :| 0 <= i < |b| && b[i].obj == obj {
      assert (a + b)[|a| + i].obj == obj;
    }
  }

  lemma {:induction false} NothingToDelete(exts: seq<Ext>, obj: nat)
    requires !HasType(exts, obj)
    ensures WithoutType(exts, obj) == exts
  {
    if exts != [] {
      assert exts == [exts[0]] + exts[1..];
      HasTypeAppend([exts[0]], exts[1..], obj);
      assert !HasType([exts[0]], obj);
      assert [exts[0]][0].obj != obj;
      NothingToDelete(exts[1..], obj);
    }
  }

  lemma {:induction false} WithoutTypeAppend(a: seq<Ext>, b: seq<Ext>, obj: nat)
    ensures WithoutType(a + b, obj) == WithoutType(a, obj) + WithoutType(b, obj)
  {
    if a == [] {
      assert a + b == b;
    } else {
      assert (a + b)[1..] == a[1..] + b;
      WithoutTypeAppend(a[1..], b, obj);
    }
  }

  lemma DeleteOne(exts: seq<Ext>, idx: nat, obj: nat)
    requires idx < |exts| && exts[idx].obj == obj
    ensures WithoutType(exts[..idx] + exts[idx + 1..], obj) == WithoutType(exts, obj)
  {
    assert exts == exts[..idx] + ([exts[idx]] + exts[idx + 1..]);
    WithoutTypeAppend(exts[..idx], [exts[idx]] + exts[idx + 1..], obj);
    WithoutTypeAppend([exts[idx]], exts[idx + 1..], obj);
    WithoutTypeAppend(exts[..idx], exts[idx + 1..], obj);
  }

  lemma {:induction false} UnaskedNone(own: seq<Ext>)
    ensures Unasked(own, []) == own
  {
    if own != [] {
      UnaskedNone(own[1..]);
      assert own == [own[0]] + own[1..];
    }
  }

  lemma {:induction false} UnaskedOneMore(own: seq<Ext>, asked: seq<Ext>, ext: Ext)
    ensures Unasked(own, asked + [ext]) == WithoutType(Unasked(own, asked), ext.obj)
  {
    if own != [] {
      UnaskedOneMore(own[1..], asked, ext);
      HasTypeAppend(asked, [ext], own[0].obj);
      assert [ext][0].obj == ext.obj;
      WithoutTypeAppend(if HasType(asked, own[0].obj) then [] else [own[0]], Unasked(own[1..], asked), ext.obj);
    }
  }

  lemma {:induction false} LastOneMore(asked: seq<Ext>, ext: Ext)
    ensures LastOfEach(asked + [ext]) == WithoutType(LastOfEach(asked), ext.obj) + [ext]
  {
    if asked == [] {
      assert asked + [ext] == [ext];
      assert LastOfEach([ext][1..]) == [];
    } else {
      assert (asked + [ext])[1..] == asked[1..] + [ext];
      LastOneMore(asked[1..], ext);
      HasTypeAppend(asked[1..], [ext], asked[0].obj);
      assert [ext][0].obj == ext.obj;
      WithoutTypeAppend([asked[0]], LastOfEach(asked[1..]), ext.obj);
    }
  }

  /** How one more requested extension changes the merged list. */
  lemma MergedOneMoreAll(own: seq<Ext>, asked: seq<Ext>, ext: Ext)
    ensures Merged(own, asked + [ext], CopyAll) == WithoutType(Merged(own, asked, CopyAll), ext.obj) + [ext]
  {
    UnaskedOneMore(own, asked, ext);
    LastOneMore(asked, ext);
    WithoutTypeAppend(Unasked(own, asked), LastOfEach(asked), ext.obj);
  }

  lemma MergedOneMoreAdd(own: seq<Ext>, asked: seq<Ext>, ext: Ext)
    ensures Merged(own, asked + [ext], CopyAdd)
            == if HasType(Merged(own, asked, CopyAdd), ext.obj) then Merged(own, asked, CopyAdd)
               else Merged(own, asked, CopyAdd) + [ext]
  {
    assert (asked + [ext])[..|asked|] == asked;
    HasTypeAppend(own, FirstOfNew(own, asked), ext.obj);
    FirstOfNewTypes(own, asked, ext.obj);
  }

  lemma {:induction false} FirstOfNewTypes(own: seq<Ext>, asked: seq<Ext>, obj: nat)
    ensures HasType(FirstOfNew(own, asked), obj) <==> HasType(asked, obj) && !HasType(own, obj)
  {
    if asked != [] {
      var front, last := asked[..|asked| - 1], asked[|asked| - 1];
      FirstOfNewTypes(own, front, obj);
      assert asked == front + [last];
      HasTypeAppend(front, [last], obj);
      assert [last][0].obj == last.obj;
      HasTypeAppend(FirstOfNew(own, front), [last], obj);
    }
  }

  lemma {:induction false} LastOfEachTypes(asked: seq<Ext>, obj: nat)
    ensures HasType(LastOfEach(asked), obj) <==> HasType(asked, obj)
  {
    if asked != [] {
      LastOfEachTypes(asked[1..], obj);
      assert asked == [asked[0]] + asked[1..];
      HasTypeAppend([asked[0]], asked[1..], obj);
      HasTypeAppend([asked[0]], LastOfEach(asked[1..]), obj);
      assert [asked[0]][0].obj == asked[0].obj;
    }
  }

  lemma {:induction false} UnaskedTypes(own: seq<Ext>, asked: seq<Ext>, obj: nat)
    ensures HasType(Unasked(own, asked), obj) <==> HasType(own, obj) && !HasType(asked, obj)
  {
    if own != [] {
      UnaskedTypes(own[1..], asked, obj);
      assert own == [own[0]] + own[1..];
      HasTypeAppend([own[0]], own[1..], obj);
      HasTypeAppend(if HasType(asked, own[0].obj) then [] else [own[0]], Unasked(own[1..], asked), obj);
      assert [own[0]][0].obj == own[0].obj;
    }
  }

  /** Either copying mode leaves a certificate with exactly the types it had or was asked for. */
  lemma MergedTypes(own: seq<Ext>, asked: seq<Ext>, mode: CopyMode, obj: nat)
    requires mode != CopyNone
    ensures HasType(Merged(own, asked, mode), obj) <==> HasType(own, obj) || HasType(asked, obj)
  {
    FirstOfNewTypes(own, asked, obj);
    HasTypeAppend(own, FirstOfNew(own, asked), obj);
    UnaskedTypes(own, asked, obj);
    LastOfEachTypes(asked, obj);
    HasTypeAppend(Unasked(own, asked), LastOfEach(asked), obj);
  }

  /** Copying the same request again changes nothing in copy mode. */
  lemma {:induction false} CopyAddTwice(own: seq<Ext>, asked: seq<Ext>, more: seq<Ext>)
    requires forall obj :: HasType(more, obj) ==> HasType(own, obj) || HasType(asked, obj)
    ensures FirstOfNew(Merged(own, asked, CopyAdd), more) == []
    decreases |more|
  {
    if more != [] {
      var front, last := more[..|more| - 1], more[|more| - 1];
      assert more == front + [last];
      assert HasType(more, last.obj);
      forall obj | HasType(front, obj)
        ensures HasType(own, obj) || HasType(asked, obj)
      {
        HasTypeAppend(front, [last], obj);
      }
      MergedTypes(own, asked, CopyAdd, last.obj);
      CopyAddTwice(own, asked, front);
    }
  }

  predicate DistinctTypes(asked: seq<Ext>) {
    asked == [] || (!HasType(asked[1..], asked[0].obj) && DistinctTypes(asked[1..]))
  }

  lemma {:induction false} LastOfEachLength(asked: seq<Ext>)
    ensures |LastOfEach(asked)| <= |asked|
    ensures |LastOfEach(asked)| == |asked| <==> DistinctTypes(asked)
    ensures DistinctTypes(asked) ==> LastOfEach(asked) == asked
  {
    if asked != [] {
      LastOfEachLength(asked[1..]);
      assert asked == [asked[0]] + asked[1..];
    }
  }

  /**
   Copy-all mode is described as copying every extension of the request.  It does so, in the
   request's order, exactly when the request has no two extensions of the same type.
   */
  lemma CopyAllKeepsAllExactlyWhen(own: seq<Ext>, asked: seq<Ext>)
    ensures Merged(own, asked, CopyAll) == Unasked(own, asked) + asked <==> DistinctTypes(asked)
  {
    LastOfEachLength(asked);
  }

  /** Of two requested extensions of one type, copy-all mode drops the first and copy mode the second. */
  lemma RepeatedTypeLosesOne(first: Ext, second: Ext)
    requires first.obj == second.obj
    ensures Merged([], [first, second], CopyAll) == [second] && Merged([], [first, second], CopyAdd) == [first]
  {
    var asked := [first, second];
    assert asked[1..] == [second] && asked[..1] == [first];
    assert [second][1..] == [] && [first][..0] == [];
    assert HasType([second], first.obj) by {
      assert [second][0].obj == first.obj;
    }
    assert HasType([first], second.obj) by {
      assert [first][0].obj == second.obj;
    }
    assert LastOfEach([second]) == [second];
    assert asked[0] == first;
    assert LastOfEach(asked) == LastOfEach(asked[1..]);
    assert FirstOfNew([], [first]) == [first] && FirstOfNew([], asked) == [first];
    assert Unasked([], asked) == [];
    assert [] + [second] == [second] && [] + [first] == [first];
  }

  // ----- Order -----

  /** The elements a mask picks out, in their order. */
  function Select(exts: seq<Ext>, mask: seq<bool>): seq<Ext>
    requires |mask| == |exts|
  {
    if exts == [] then []
    else
      var n := |exts| - 1;
      Select(exts[..n], mask[..n]) + if mask[n] then [exts[n]] else []
  }

  lemma {:induction false} SelectFromFront(exts: seq<Ext>, mask: seq<bool>)
    requires |mask| == |exts| > 0
    ensures Select(exts, mask) == (if mask[0] then [exts[0]] else []) + Select(exts[1..], mask[1..])
  {
    var n := |exts| - 1;
    if n > 0 {
      SelectFromFront(exts[..n], mask[..n]);
      assert exts[..n][1..] == exts[1..][..n - 1] && mask[..n][1..] == mask[1..][..n - 1];
    } else {
      assert exts[..0] == [] && exts[1..] == [];
    }
  }

  predicate FirstOfNewAt(own: seq<Ext>, asked: seq<Ext>, p: nat)
    requires p < |asked|
  {
    !HasType(own, asked[p].obj) && !HasType(asked[..p], asked[p].obj)
  }

  /** Copy mode appends, in the request's order, exactly the first extension of each new type. */
  lemma {:induction false} FirstOfNewInOrder(own: seq<Ext>, asked: seq<Ext>, mask: seq<bool>)
    requires |mask| == |asked| && forall p | 0 <= p < |asked| :: mask[p] <==> FirstOfNewAt(own, asked, p)
    ensures FirstOfNew(own, asked) == Select(asked, mask)
  {
    if asked != [] {
      var n := |asked| - 1;
      forall p | 0 <= p < n ensures mask[..n][p] <==> FirstOfNewAt(own, asked[..n], p) {
        assert asked[..n][..p] == asked[..p];
      }
      FirstOfNewInOrder(own, asked[..n], mask[..n]);
      assert mask[n] <==> FirstOfNewAt(own, asked, n);
    }
  }

  predicate LastAt(asked: seq<Ext>, p: nat)
    requires p < |asked|
  {
    !HasType(asked[p + 1..], asked[p].obj)
  }

  /** Copy-all mode appends, in the request's order, exactly the last extension of each type. */
  lemma {:induction false} LastOfEachInOrder(asked: seq<Ext>, mask: seq<bool>)
    requires |mask| == |asked| && forall p | 0 <= p < |asked| :: mask[p] <==> LastAt(asked, p)
    ensures LastOfEach(asked) == Select(asked, mask)
  {
    if asked != [] {
      var rest := asked[1..];
      forall p | 0 <= p < |rest| ensures mask[1..][p] <==> LastAt(rest, p) {
        var q := p + 1;
        assert mask[1..][p] == mask[q] && rest[p] == asked[q] && rest[p + 1..] == asked[q + 1..];
      }
      LastOfEachInOrder(rest, mask[1..]);
      SelectFromFront(asked, mask);
      assert mask[0] <==> LastAt(asked, 0);
    }
  }

  /** And keeps, in their order, exactly the certificate's extensions of types nobody asked for. */
  lemma {:induction false} UnaskedInOrder(own: seq<Ext>, asked: seq<Ext>, mask: seq<bool>)
    requires |mask| == |own| && forall p | 0 <= p < |own| :: mask[p] <==> !HasType(asked, own[p].obj)
    ensures Unasked(own, asked) == Select(own, mask)
  {
    if own != [] {
      UnaskedInOrder(own[1..], asked, mask[1..]);
      SelectFromFront(own, mask);
    }
  }
}
