/**
 * When the streaming walk of a Config resource and the recursive one agree: always,
 * except that a self-reference headed by the string "Pattern" is a type description
 * to the streaming parser and an identity to the recursive walk.
 */
module ConfigAgreement {
  import opened Outcomes
  import opened ValueTree
  import opened Scalars
  import opened ConfigTree

  function Erase(ps: seq<Projected>): (ds: seq<Descriptor>)
    ensures |ds| == |ps|
  {
    seq(|ps|, i requires 0 <= i < |ps| => ps[i].descriptor)
  }

  lemma EraseAppend(a: seq<Projected>, b: seq<Projected>)
    ensures Erase(a + b) == Erase(a) + Erase(b)
  {
  }

  /** The self-reference of a window is a type description. */
  predicate Obscured(values: seq<Value>, i: nat)
    requires i + 2 < |values|
  {
    DescriptorAt(values, i, None).Some? && IsPattern(values[i].items)
  }

  /** No list of the tree has an obscured self-reference. */
  predicate Plain(v: Value)
    decreases v, 1
  {
    v.List? ==>
      (forall i: nat :: i < WindowCount(v.items) ==> !Obscured(v.items, i)) && AllPlain(v.items)
  }

  predicate AllPlain(values: seq<Value>)
    decreases values, 0
  {
    values == [] || (Plain(values[0]) && AllPlain(values[1..]))
  }

  // ---- the recursive walk without the obscured windows ----

  function ClearDescriptors(values: seq<Value>, n: nat, purpose: Option<Purpose>): (ds: seq<Descriptor>)
    requires n == 0 || n + 2 <= |values|
  {
    if n == 0 then []
    else
      ClearDescriptors(values, n - 1, purpose)
      + (if Obscured(values, n - 1) then [] else OptionToSeq(DescriptorAt(values, n - 1, purpose)))
  }

  function CollectClear(v: Value, inherited: Option<Purpose>): (ds: seq<Descriptor>)
    decreases v, 1
  {
    if !v.List? then []
    else
      var purpose := if Declared(v.items).Some? then Declared(v.items) else inherited;
      ClearDescriptors(v.items, WindowCount(v.items), purpose) + CollectAllClear(v.items, purpose)
  }

  function CollectAllClear(values: seq<Value>, purpose: Option<Purpose>): (ds: seq<Descriptor>)
    decreases values, 0
  {
    if values == [] then [] else CollectClear(values[0], purpose) + CollectAllClear(values[1..], purpose)
  }

  /** One window: the same descriptor, unless the reference is obscured. */
  lemma WindowAgrees(values: seq<Value>, i: nat, scope: Option<Scope>)
    requires i + 2 < |values|
    ensures var p, d := ProjectAt(values, i, scope), DescriptorAt(values, i, PurposeOf(scope));
            if Obscured(values, i) then p.None? && d.Some?
            else p.Some? == d.Some? && (p.Some? ==> p.value.descriptor == d.value)
  {
    if values[i].List? && IdentityOf(values[i].items, values[i + 1].AsString()).Some? {
      var reference := values[i].items;
      assert AllScalars(reference) by {
        assert reference[0].AsStr().Some? && reference[1].AsStr().Some? && reference[2].AsStr().Some?;
      }
    }
  }

  lemma {:induction false} OwnAgrees(values: seq<Value>, n: nat, scope: Option<Scope>)
    requires n == 0 || n + 2 <= |values|
    ensures Erase(OwnProjected(values, n, scope)) == ClearDescriptors(values, n, PurposeOf(scope))
    ensures |OwnProjected(values, n, scope)| <= |OwnDescriptors(values, n, PurposeOf(scope))|
    ensures if forall i: nat :: i < n ==> !Obscured(values, i)
            then Erase(OwnProjected(values, n, scope)) == OwnDescriptors(values, n, PurposeOf(scope))
            else |OwnProjected(values, n, scope)| < |OwnDescriptors(values, n, PurposeOf(scope))|
  {
    hide ProjectAt, DescriptorAt, Obscured;
    if n > 0 {
      OwnAgrees(values, n - 1, scope);
      WindowAgrees(values, n - 1, scope);
      EraseAppend(OwnProjected(values, n - 1, scope), OptionToSeq(ProjectAt(values, n - 1, scope)));
    }
  }

  /** The streaming walk is the recursive one without the obscured windows: the same, or shorter. */
  lemma {:induction false} WalkAgrees(v: Value, scope: Option<Scope>, depth: nat)
    ensures Erase(StreamWalk(v, scope, depth)) == CollectClear(v, PurposeOf(scope))
    ensures |StreamWalk(v, scope, depth)| <= |Collect(v, PurposeOf(scope))|
    ensures if Plain(v) then Erase(StreamWalk(v, scope, depth)) == Collect(v, PurposeOf(scope))
            else |StreamWalk(v, scope, depth)| < |Collect(v, PurposeOf(scope))|
    decreases v, 1
  {
    hide OwnProjected, OwnDescriptors, ClearDescriptors, StreamWalkAll, CollectAll, CollectAllClear, Declared, Obscured;
    hide AllPlain;
    if v.List? {
      var own := ScopeOf(v.items, scope, depth);
      OwnAgrees(v.items, WindowCount(v.items), own);
      AllAgree(v.items, own, depth + 1);
      EraseAppend(OwnProjected(v.items, WindowCount(v.items), own), StreamWalkAll(v.items, own, depth + 1));
    }
  }

  lemma {:induction false} AllAgree(values: seq<Value>, scope: Option<Scope>, depth: nat)
    ensures Erase(StreamWalkAll(values, scope, depth)) == CollectAllClear(values, PurposeOf(scope))
    ensures |StreamWalkAll(values, scope, depth)| <= |CollectAll(values, PurposeOf(scope))|
    ensures if AllPlain(values) then Erase(StreamWalkAll(values, scope, depth)) == CollectAll(values, PurposeOf(scope))
            else |StreamWalkAll(values, scope, depth)| < |CollectAll(values, PurposeOf(scope))|
    decreases values, 0
  {
    hide StreamWalk, Collect, CollectClear, Plain;
    if values != [] {
      WalkAgrees(values[0], scope, depth);
      AllAgree(values[1..], scope, depth);
      EraseAppend(StreamWalk(values[0], scope, depth), StreamWalkAll(values[1..], scope, depth));
    }
  }

  /** The exact condition under which the streaming parser gives the recursive walk's descriptors. */
  lemma WalksAgreeExactly(v: Value)
    ensures Erase(StreamWalk(v, None, 0)) == Collect(v, None) <==> Plain(v)
  {
    hide StreamWalk, Collect, Plain;
    WalkAgrees(v, None, 0);
  }

  const SAMPLE_GUID := "00000000-0000-0000-0000-000000000001"

  /** A resource on which they differ. */
  function PatternReference(): Value {
    List([List([Str("Pattern"), Atom("0"), Atom(SAMPLE_GUID)]), Str("Name"), Null])
  }

  lemma WalksCanDiffer()
    ensures Erase(StreamWalk(PatternReference(), None, 0)) != Collect(PatternReference(), None)
  {
    var values := PatternReference().items;
    SampleGuidParses();
    assert DescriptorAt(values, 0, None).Some?;
    assert Obscured(values, 0);
    assert !Plain(PatternReference());
    WalksAgreeExactly(PatternReference());
  }

  lemma SampleGuidParses()
    ensures ParseGuid(SAMPLE_GUID).Some?
  {
  }
}
