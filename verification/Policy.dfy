/**
 The policy loop of do_body: which request entries go into the issued subject, and when a request
 is refused.  A name is a sequence of entries; two values are the same when ASN1_STRING_cmp says so.
 */
module Policy {
  import opened Options

  datatype Value = Value(tag: int, text: string)

  datatype Entry = Entry(obj: nat, value: Value)

  type Name = seq<Entry>

  /** A line of the policy section; `obj` is absent when the type has no known number. */
  datatype Rule = Rule(obj: Option<nat>, kind: string)

  /** X509_NAME_get_index_by_OBJ: the first entry of that type behind position `last`, or -1. */
  function IndexByObj(name: Name, obj: nat, last: int): (j: int)
    requires -1 <= last < |name|
    ensures j == -1 || (last < j < |name| && name[j].obj == obj)
    ensures forall i | last < i < (if j == -1 then |name| else j) :: name[i].obj != obj
    decreases |name| - last
  {
    if last + 1 == |name| then -1
    else if name[last + 1].obj == obj then last + 1
    else IndexByObj(name, obj, last + 1)
  }

  // ----- What the policy asks for -----

  predicate Occurs(name: Name, obj: nat) {
    exists i | 0 <= i < |name| :: name[i].obj == obj
  }

  predicate KnownKind(kind: string) {
    kind == "optional" || kind == "supplied" || kind == "match"
  }

  predicate Accepts(rule: Rule, name: Name, ca: Name) {
    && rule.obj.Some?
    && (|| rule.kind == "optional"
        || (rule.kind == "supplied" && Occurs(name, rule.obj.value))
        || (&& rule.kind == "match"
            && Occurs(name, rule.obj.value)
            && forall i | 0 <= i < |name| && name[i].obj == rule.obj.value :: name[i] in ca))
  }

  predicate AllAccept(policy: seq<Rule>, name: Name, ca: Name) {
    forall r | 0 <= r < |policy| :: Accepts(policy[r], name, ca)
  }

  /** The request's entries of one type from position k on, in the request's order. */
  function OfType(name: Name, obj: nat, k: nat): Name
    requires k <= |name|
    decreases |name| - k
  {
    if k == |name| then []
    else (if name[k].obj == obj then [name[k]] else []) + OfType(name, obj, k + 1)
  }

  /** The subject: rule by rule, the request's entries of that type. */
  function Project(policy: seq<Rule>, name: Name): Name {
    if policy == [] then []
    else
      var front := Project(policy[..|policy| - 1], name);
      var obj := policy[|policy| - 1].obj;
      if obj.None? then front else front + OfType(name, obj.value, 0)
  }

  lemma {:induction false} OfTypeSkips(name: Name, obj: nat, last: int)
    requires -1 <= last < |name|
    ensures var j := IndexByObj(name, obj, last);
            OfType(name, obj, last + 1) == if j == -1 then [] else [name[j]] + OfType(name, obj, j + 1)
    decreases |name| - last
  {
    if last + 1 < |name| && name[last + 1].obj != obj {
      OfTypeSkips(name, obj, last + 1);
      assert [] + OfType(name, obj, last + 2) == OfType(name, obj, last + 2);
    }
  }

  /** What the kinds of a line mean, on a request with two entries of a type and a CA with one of them. */
  lemma KindsOfLines(obj: nat, other: nat, a: Value, b: Value)
    requires a != b && obj != other
    ensures var x, y := Entry(obj, a), Entry(obj, b);
            && Accepts(Rule(Some(obj), "match"), [x], [x]) && !Accepts(Rule(Some(obj), "match"), [y], [x])
            && !Accepts(Rule(Some(obj), "match"), [x, y], [x]) && Accepts(Rule(Some(obj), "match"), [y, x], [x, y])
            && Accepts(Rule(Some(obj), "supplied"), [x, y], []) && !Accepts(Rule(Some(other), "supplied"), [x], [x])
            && !Accepts(Rule(Some(other), "match"), [x], [x]) && Accepts(Rule(Some(other), "optional"), [x], [])
            && !Accepts(Rule(Some(obj), "Match"), [x], [x]) && !Accepts(Rule(None, "optional"), [x], [x])
  {
    var x, y := Entry(obj, a), Entry(obj, b);
    assert [x][0].obj == obj && [y][0].obj == obj && [x, y][0].obj == obj && [x, y][1].obj == obj;
    assert [y, x][0].obj == obj && [x, y][1] !in [x];
    assert "match" != "supplied" && "match" != "optional" && "supplied" != "optional";
    assert "Match"[0] != "match"[0] && |"Match"| != |"supplied"| && |"Match"| != |"optional"|;
  }

  // ----- The loop -----

  /** The search the source runs with a `goto`: an entry of the CA name with the request's value. */
  method FindInCa(ca: Name, wanted: Entry) returns (push: Option<Entry>)
    ensures push == if wanted in ca then Some(wanted) else None
  {
    var last2 := -1;
    var j := IndexByObj(ca, wanted.obj, last2);
    while j >= 0
      invariant -1 <= last2 < |ca| && j == IndexByObj(ca, wanted.obj, last2)
      invariant forall i | 0 <= i <= last2 :: ca[i] != wanted
      decreases |ca| - last2
    {
      last2 := j;
      if ca[j].value == wanted.value {
        return Some(ca[j]);
      }
      j := IndexByObj(ca, wanted.obj, last2);
    }
    return None;
  }

  /** The part of the line that looks at one entry, or at there being none. */
  method Choose(kind: string, tne: Option<Entry>, ca: Name) returns (ok: bool, push: Option<Entry>)
    ensures ok <==>
            && KnownKind(kind)
            && (kind != "optional" ==> tne.Some?)
            && (kind == "match" ==> tne.value in ca)
    ensures ok ==> push == tne
  {
    ok, push := false, None;
    if kind == "optional" {
      push := tne;
    } else if kind == "supplied" {
      if tne.None? {
        return;
      }
      push := tne;
    } else if kind == "match" {
      if tne.None? {
        return;
      }
      push := FindInCa(ca, tne.value);
      if push.None? {
        return;
      }
    } else {
      return;
    }
    ok := true;
  }

  /** One line of the policy. */
  method ApplyRule(rule: Rule, name: Name, ca: Name, subject: Name) returns (ok: bool, extended: Name)
    ensures ok <==> Accepts(rule, name, ca)
    ensures ok ==> extended == subject + OfType(name, rule.obj.value, 0)
  {
    ok, extended := false, subject;
    if rule.obj.None? {
      return;
    }
    var obj := rule.obj.value;
    var last := -1;
    ghost var whole := subject + OfType(name, obj, 0);
    while true
      invariant -1 <= last < |name|
      invariant extended + OfType(name, obj, last + 1) == whole
      invariant last != -1 ==>
                  && name[last].obj == obj
                  && KnownKind(rule.kind)
                  && (rule.kind == "match" ==>
                        forall i | 0 <= i <= last && name[i].obj == obj :: name[i] in ca)
      decreases |name| - last
    {
      var j := IndexByObj(name, obj, last);
      OfTypeSkips(name, obj, last);
      var tne: Option<Entry>;
      if j < 0 {
        if last != -1 {
          break;
        }
        tne := None;
      } else {
        tne := Some(name[j]);
      }
      var push: Option<Entry>;
      ok, push := Choose(rule.kind, tne, ca);
      if !ok {
        return;
      }
      if push.Some? {
        extended := extended + [push.value];
      }
      if j < 0 {
        break;
      }
      last := j;
    }
    ok := true;
  }

  /** The whole loop: refuses at the first rule that does not accept. */
  method ApplyPolicy(policy: seq<Rule>, name: Name, ca: Name) returns (subject: Option<Name>)
    ensures subject == if AllAccept(policy, name, ca) then Some(Project(policy, name)) else None
    ensures subject.Some? ==> InPolicyOrder(subject.value, policy, name)
  {
    var built: Name := [];
    for i := 0 to |policy|
      invariant AllAccept(policy[..i], name, ca) && built == Project(policy[..i], name)
    {
      assert policy[..i + 1][..i] == policy[..i];
      var ok, extended := ApplyRule(policy[i], name, ca, built);
      if !ok {
        return None;
      }
      built := extended;
    }
    assert policy[..|policy|] == policy;
    SubjectInPolicyOrder(policy, name);
    return Some(built);
  }

  // ----- The order of the subject -----

  /** Where an entry of the subject comes from: a line of the policy and a position in the request. */
  datatype Origin = Origin(line: nat, position: nat)

  predicate Before(a: Origin, b: Origin) {
    a.line < b.line || (a.line == b.line && a.position < b.position)
  }

  predicate Matches(o: Origin, policy: seq<Rule>, name: Name) {
    o.line < |policy| && o.position < |name| && policy[o.line].obj == Some(name[o.position].obj)
  }

  /** The positions of one type, from position p on. */
  function Positions(name: Name, obj: nat, p: nat): (ps: seq<nat>)
    requires p <= |name|
    ensures forall k | 0 <= k < |ps| :: p <= ps[k] < |name| && name[ps[k]].obj == obj
    ensures forall j, k | 0 <= j < k < |ps| :: ps[j] < ps[k]
    decreases |name| - p
  {
    if p == |name| then []
    else (if name[p].obj == obj then [p] else []) + Positions(name, obj, p + 1)
  }

  lemma {:induction false} PositionsAreAll(name: Name, obj: nat, p: nat, q: nat)
    requires p <= q < |name| && name[q].obj == obj
    ensures q in Positions(name, obj, p)
    decreases q - p
  {
    if p < q {
      PositionsAreAll(name, obj, p + 1, q);
    }
  }

  lemma {:induction false} OfTypeLiesAt(name: Name, obj: nat, p: nat)
    requires p <= |name|
    ensures var ps := Positions(name, obj, p);
            |OfType(name, obj, p)| == |ps| && forall k | 0 <= k < |ps| :: OfType(name, obj, p)[k] == name[ps[k]]
    decreases |name| - p
  {
    if p < |name| {
      OfTypeLiesAt(name, obj, p + 1);
    }
  }

  /** Down the policy and, within a line, through the request. */
  function Origins(policy: seq<Rule>, name: Name): seq<Origin> {
    if policy == [] then []
    else
      var line := |policy| - 1;
      Origins(policy[..line], name) + LineOrigins(policy[line].obj, line, name)
  }

  function LineOrigins(obj: Option<nat>, line: nat, name: Name): (origins: seq<Origin>)
    ensures forall k | 0 <= k < |origins| ::
              origins[k].line == line && origins[k].position < |name| && obj == Some(name[origins[k].position].obj)
    ensures forall j, k | 0 <= j < k < |origins| :: Before(origins[j], origins[k])
  {
    if obj.None? then []
    else
      var ps := Positions(name, obj.value, 0);
      seq(|ps|, k requires 0 <= k < |ps| => Origin(line, ps[k]))
  }

  lemma {:induction false} OriginsMatch(policy: seq<Rule>, name: Name)
    ensures forall k | 0 <= k < |Origins(policy, name)| :: Matches(Origins(policy, name)[k], policy, name)
  {
    if policy != [] {
      var line := |policy| - 1;
      OriginsMatch(policy[..line], name);
      assert forall o | Matches(o, policy[..line], name) :: Matches(o, policy, name);
    }
  }

  lemma {:induction false} OriginsIncrease(policy: seq<Rule>, name: Name)
    ensures forall j, k | 0 <= j < k < |Origins(policy, name)| ::
              Before(Origins(policy, name)[j], Origins(policy, name)[k])
  {
    if policy != [] {
      OriginsMatch(policy[..|policy| - 1], name);
      OriginsIncrease(policy[..|policy| - 1], name);
    }
  }

  lemma {:induction false} OriginsAreAll(policy: seq<Rule>, name: Name, o: Origin)
    requires Matches(o, policy, name)
    ensures o in Origins(policy, name)
  {
    var line := |policy| - 1;
    if o.line < line {
      OriginsAreAll(policy[..line], name, o);
    } else {
      var obj := policy[line].obj.value;
      PositionsAreAll(name, obj, 0, o.position);
      var k :| 0 <= k < |Positions(name, obj, 0)| && Positions(name, obj, 0)[k] == o.position;
      assert LineOrigins(policy[line].obj, line, name)[k] == o;
    }
  }

  lemma {:induction false} SubjectLiesAt(policy: seq<Rule>, name: Name)
    ensures var origins := Origins(policy, name);
            && |origins| == |Project(policy, name)|
            && forall k | 0 <= k < |origins| ::
                 origins[k].position < |name| && Project(policy, name)[k] == name[origins[k].position]
  {
    if policy != [] {
      var line := |policy| - 1;
      SubjectLiesAt(policy[..line], name);
      if policy[line].obj.Some? {
        OfTypeLiesAt(name, policy[line].obj.value, 0);
      }
    }
  }

  /**
   Each entry has its origin, the origins go down the policy and, within a line, through the request,
   and every match of a line and an entry is among them.
   */
  ghost predicate InPolicyOrder(subject: Name, policy: seq<Rule>, name: Name) {
    exists origins: seq<Origin> :: Ordered(subject, policy, name, origins)
  }

  ghost predicate Ordered(subject: Name, policy: seq<Rule>, name: Name, origins: seq<Origin>) {
    && |origins| == |subject|
    && (forall k | 0 <= k < |origins| ::
          Matches(origins[k], policy, name) && subject[k] == name[origins[k].position])
    && (forall j, k | 0 <= j < k < |origins| :: Before(origins[j], origins[k]))
    && forall o | Matches(o, policy, name) :: o in origins
  }

  lemma SubjectInPolicyOrder(policy: seq<Rule>, name: Name)
    ensures InPolicyOrder(Project(policy, name), policy, name)
  {
    OriginsMatch(policy, name);
    OriginsIncrease(policy, name);
    SubjectLiesAt(policy, name);
    forall o | Matches(o, policy, name) ensures o in Origins(policy, name) {
      OriginsAreAll(policy, name, o);
    }
    assert Ordered(Project(policy, name), policy, name, Origins(policy, name));
  }

  // ----- What the subject contains -----

  function Count(name: Name, e: Entry): nat {
    if name == [] then 0 else (if name[0] == e then 1 else 0) + Count(name[1..], e)
  }

  lemma {:induction false} CountAppend(a: Name, b: Name, e: Entry)
    ensures Count(a + b, e) == Count(a, e) + Count(b, e)
  {
    if a == [] {
      assert a + b == b;
    } else {
      assert (a + b)[1..] == a[1..] + b;
      CountAppend(a[1..], b, e);
    }
  }

  lemma {:induction false} OfTypeCounts(name: Name, obj: nat, k: nat, e: Entry)
    requires k <= |name|
    ensures Count(OfType(name, obj, k), e) == if e.obj == obj then Count(name[k..], e) else 0
    decreases |name| - k
  {
    if k < |name| {
      OfTypeCounts(name, obj, k + 1, e);
      assert name[k..][1..] == name[k + 1..];
      CountAppend(if name[k].obj == obj then [name[k]] else [], OfType(name, obj, k + 1), e);
    }
  }

  /** How many lines of the policy name a type. */
  function Mentions(policy: seq<Rule>, obj: nat): nat {
    if policy == [] then 0
    else Mentions(policy[..|policy| - 1], obj) + if policy[|policy| - 1].obj == Some(obj) then 1 else 0
  }

  /** Nothing is invented or lost: an entry is there once for each line that names its type, times its copies. */
  lemma {:induction false} ProjectCounts(policy: seq<Rule>, name: Name, e: Entry)
    ensures Count(Project(policy, name), e) == Mentions(policy, e.obj) * Count(name, e)
  {
    if policy != [] {
      var front, obj := policy[..|policy| - 1], policy[|policy| - 1].obj;
      ProjectCounts(front, name, e);
      assert name[0..] == name;
      if obj.Some? {
        OfTypeCounts(name, obj.value, 0, e);
        CountAppend(Project(front, name), OfType(name, obj.value, 0), e);
      }
      Distribute(Mentions(front, e.obj), Count(name, e));
    }
  }

  lemma Distribute(m: nat, c: nat)
    ensures (m + 1) * c == m * c + c
  {
  }

  /** A self-signed request is matched against itself: only missing fields can refuse it. */
  lemma SelfSignedMatchesItself(policy: seq<Rule>, name: Name)
    ensures AllAccept(policy, name, name) <==>
            forall r | 0 <= r < |policy| ::
              && policy[r].obj.Some?
              && KnownKind(policy[r].kind)
              && (policy[r].kind != "optional" ==> Occurs(name, policy[r].obj.value))
  {
    forall r | 0 <= r < |policy|
      ensures Accepts(policy[r], name, name) <==>
              && policy[r].obj.Some?
              && KnownKind(policy[r].kind)
              && (policy[r].kind != "optional" ==> Occurs(name, policy[r].obj.value))
    {
      assert forall i | 0 <= i < |name| :: name[i] in name;
    }
  }
}
