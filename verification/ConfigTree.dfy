/**
 * Descriptors of a Config resource as two walks of its value tree: the recursive one,
 * and the one the streaming parser of src/metadata/config.rs amounts to, which knows
 * how deep the purpose of every descriptor was declared.
 */
module ConfigTree {
  import opened Outcomes
  import opened ValueTree
  import opened Scalars

  datatype FieldPurpose =
    | InformationRegisterDimension
    | InformationRegisterResource
    | InformationRegisterAttribute
    | AccumulationRegisterDimension
    | AccumulationRegisterResource
    | AccumulationRegisterAttribute
    | AccountingRegisterDimension
    | AccountingRegisterResource
    | AccountingRegisterAttribute

  datatype Purpose = Field(field: FieldPurpose) | EnumerationValue

  /** The purpose a collection identifier declares for the fields in its list. */
  function FromCollection(text: string): (r: Option<Purpose>)
  {
    var id := AsciiLowerAll(text);
    if id == "bee0a08c-07eb-40c0-8544-5c364c171465" then Some(EnumerationValue)
    else if id == "13134203-f60b-11d5-a3c7-0050bae0a776" then Some(Field(InformationRegisterDimension))
    else if id == "13134202-f60b-11d5-a3c7-0050bae0a776" then Some(Field(InformationRegisterResource))
    else if id == "a2207540-1400-11d6-a3c7-0050bae0a776" then Some(Field(InformationRegisterAttribute))
    else if id == "b64d9a43-1642-11d6-a3c7-0050bae0a776" then Some(Field(AccumulationRegisterDimension))
    else if id == "b64d9a41-1642-11d6-a3c7-0050bae0a776" then Some(Field(AccumulationRegisterResource))
    else if id == "b64d9a42-1642-11d6-a3c7-0050bae0a776" then Some(Field(AccumulationRegisterAttribute))
    else if id == "35b63b9d-0adf-4625-a047-10ae874c19a3" then Some(Field(AccountingRegisterDimension))
    else if id == "63405499-7491-4ce3-ac72-43433cbe4112" then Some(Field(AccountingRegisterResource))
    else if id == "9d28ee33-9c7e-4a1b-8f13-50aa9b36607b" then Some(Field(AccountingRegisterAttribute))
    else None
  }

  datatype Descriptor = Descriptor(
    guid: Guid, marker: string, name: string, comment: Option<string>,
    fieldPurpose: Option<FieldPurpose>, enumerationValue: bool)

  /** What a self-reference and the name after it identify. */
  datatype Identity = Identity(guid: Guid, name: string, marker: string)

  function IdentityOf(reference: seq<Value>, name: Option<string>): (r: Option<Identity>)
  {
    if |reference| != 3 || reference[1].AsStr() != Some("0") || name.None? then None
    else
      var guid, marker := reference[2].AsStr(), reference[0].AsStr();
      if guid.None? || marker.None? || ParseGuid(guid.value).None? then None
      else Some(Identity(ParseGuid(guid.value).value, name.value, marker.value))
  }

  function NonEmpty(comment: Option<string>): (r: Option<string>) {
    if comment == Some("") then None else comment
  }

  function Describe(identity: Identity, comment: Option<string>, purpose: Option<Purpose>): (d: Descriptor)
  {
    Descriptor(identity.guid, identity.marker, identity.name, NonEmpty(comment),
               if purpose.Some? && purpose.value.Field? then Some(purpose.value.field) else None,
               purpose == Some(EnumerationValue))
  }

  // ---- the recursive walk ----

  /** The first purpose declared by one of the first two values. */
  function Declared(values: seq<Value>): (r: Option<Purpose>)
  {
    var first := if |values| > 0 then DeclaredBy(values[0]) else None;
    if first.Some? then first else if |values| > 1 then DeclaredBy(values[1]) else None
  }

  function DeclaredBy(v: Value): (r: Option<Purpose>)
  {
    if v.AsStr().Some? then FromCollection(v.AsStr().value) else None
  }

  function CommentAfter(values: seq<Value>, i: nat): (r: Option<string>) {
    if i + 3 < |values| then values[i + 3].AsString() else None
  }

  /** The descriptor that starts at an index of a list, if one does. */
  function DescriptorAt(values: seq<Value>, i: nat, purpose: Option<Purpose>): (r: Option<Descriptor>)
    requires i + 2 < |values|
  {
    if !values[i].List? then None
    else
      var identity := IdentityOf(values[i].items, values[i + 1].AsString());
      if identity.None? then None else Some(Describe(identity.value, CommentAfter(values, i), purpose))
  }

  /** The descriptors of the first n windows of three values. */
  function OwnDescriptors(values: seq<Value>, n: nat, purpose: Option<Purpose>): (ds: seq<Descriptor>)
    requires n == 0 || n + 2 <= |values|
  {
    if n == 0 then []
    else OwnDescriptors(values, n - 1, purpose) + OptionToSeq(DescriptorAt(values, n - 1, purpose))
  }

  function WindowCount(values: seq<Value>): (n: nat)
    ensures n == 0 || n + 2 == |values|
  {
    if |values| < 3 then 0 else |values| - 2
  }

  function Collect(v: Value, inherited: Option<Purpose>): (ds: seq<Descriptor>)
    decreases v, 1
  {
    if !v.List? then []
    else
      var purpose := if Declared(v.items).Some? then Declared(v.items) else inherited;
      OwnDescriptors(v.items, WindowCount(v.items), purpose) + CollectAll(v.items, purpose)
  }

  function CollectAll(values: seq<Value>, purpose: Option<Purpose>): (ds: seq<Descriptor>)
    decreases values, 0
  {
    if values == [] then [] else Collect(values[0], purpose) + CollectAll(values[1..], purpose)
  }

  // ---- the streaming walk ----

  /** What the streaming parser keeps of a value. */
  datatype Candidate =
    | Scalar(value: Value)
    | Flat(items: seq<Value>)
    | Pattern
    | Other
  {
    function AsStr(): (r: Option<string>) {
      if Scalar? then value.AsStr() else None
    }

    function AsString(): (r: Option<string>) {
      if Scalar? then value.AsString() else None
    }
  }

  predicate AllScalars(values: seq<Value>) {
    forall i :: 0 <= i < |values| ==> !values[i].List?
  }

  /** The list opens with the string that marks a type description. */
  predicate IsPattern(values: seq<Value>) {
    values != [] && values[0] == Str("Pattern")
  }

  function KeptOf(v: Value): (c: Candidate) {
    if !v.List? then Scalar(v)
    else if IsPattern(v.items) then Pattern
    else if AllScalars(v.items) then Flat(v.items)
    else Other
  }

  /** A purpose and the depth of the list that declared it. */
  datatype Scope = Scope(purpose: Purpose, depth: nat)

  datatype Projected = Projected(descriptor: Descriptor, purposeDepth: Option<nat>)

  function PurposeOf(scope: Option<Scope>): (p: Option<Purpose>) {
    if scope.Some? then Some(scope.value.purpose) else None
  }

  function DepthOf(scope: Option<Scope>): (d: Option<nat>) {
    if scope.Some? then Some(scope.value.depth) else None
  }

  function Project(reference: Candidate, name: Candidate, comment: Option<Candidate>, scope: Option<Scope>)
    : (r: Option<Projected>)
  {
    if !reference.Flat? then None
    else
      var identity := IdentityOf(reference.items, name.AsString());
      if identity.None? then None
      else
        var text := if comment.Some? then comment.value.AsString() else None;
        Some(Projected(Describe(identity.value, text, PurposeOf(scope)), DepthOf(scope)))
  }

  function ProjectAt(values: seq<Value>, i: nat, scope: Option<Scope>): (r: Option<Projected>)
    requires i + 2 < |values|
  {
    var comment := if i + 3 < |values| then Some(KeptOf(values[i + 3])) else None;
    Project(KeptOf(values[i]), KeptOf(values[i + 1]), comment, scope)
  }

  function OwnProjected(values: seq<Value>, n: nat, scope: Option<Scope>): (ps: seq<Projected>)
    requires n == 0 || n + 2 <= |values|
  {
    if n == 0 then []
    else OwnProjected(values, n - 1, scope) + OptionToSeq(ProjectAt(values, n - 1, scope))
  }

  function ScopeOf(values: seq<Value>, inherited: Option<Scope>, depth: nat): (s: Option<Scope>)
  {
    if Declared(values).Some? then Some(Scope(Declared(values).value, depth)) else inherited
  }

  function StreamWalk(v: Value, inherited: Option<Scope>, depth: nat): (ps: seq<Projected>)
    decreases v, 1
  {
    if !v.List? then []
    else
      var scope := ScopeOf(v.items, inherited, depth);
      OwnProjected(v.items, WindowCount(v.items), scope) + StreamWalkAll(v.items, scope, depth + 1)
  }

  function StreamWalkAll(values: seq<Value>, scope: Option<Scope>, depth: nat): (ps: seq<Projected>)
    decreases values, 0
  {
    if values == [] then [] else StreamWalk(values[0], scope, depth) + StreamWalkAll(values[1..], scope, depth)
  }

  lemma {:induction false} StreamWalkAllSnoc(values: seq<Value>, v: Value, scope: Option<Scope>, depth: nat)
    ensures StreamWalkAll(values + [v], scope, depth)
         == StreamWalkAll(values, scope, depth) + StreamWalk(v, scope, depth)
  {
    hide StreamWalk;
    if values == [] {
      assert [v][1..] == [];
    } else {
      assert (values + [v])[1..] == values[1..] + [v];
      StreamWalkAllSnoc(values[1..], v, scope, depth);
    }
  }

  // ---- retroactive repair ----

  /** A descriptor whose purpose was declared no deeper than a list gets that list's purpose. */
  function RepairOne(p: Projected, purpose: Purpose, depth: nat): (r: Projected)
  {
    if p.purposeDepth.Some? && p.purposeDepth.value >= depth then p
    else Projected(
        p.descriptor.(fieldPurpose := if purpose.Field? then Some(purpose.field) else None,
                      enumerationValue := purpose == EnumerationValue),
        Some(depth))
  }

  function Repair(ps: seq<Projected>, purpose: Purpose, depth: nat): (r: seq<Projected>)
    ensures |r| == |ps|
  {
    seq(|ps|, i requires 0 <= i < |ps| => RepairOne(ps[i], purpose, depth))
  }

  lemma RepairAppend(a: seq<Projected>, b: seq<Projected>, purpose: Purpose, depth: nat)
    ensures Repair(a + b, purpose, depth) == Repair(a, purpose, depth) + Repair(b, purpose, depth)
  {
  }

  /** The scope a descendant would have inherited had the list's purpose been known. */
  predicate Outer(scope: Option<Scope>, depth: nat) {
    scope.Some? ==> scope.value.depth < depth
  }

  lemma {:induction false} RepairOwn(values: seq<Value>, n: nat, before: Option<Scope>, purpose: Purpose, depth: nat)
    requires n == 0 || n + 2 <= |values|
    requires Outer(before, depth)
    ensures Repair(OwnProjected(values, n, before), purpose, depth)
         == OwnProjected(values, n, Some(Scope(purpose, depth)))
  {
    if n > 0 {
      RepairOwn(values, n - 1, before, purpose, depth);
      RepairAppend(OwnProjected(values, n - 1, before), OptionToSeq(ProjectAt(values, n - 1, before)), purpose, depth);
    }
  }

  lemma {:induction false} RepairInner(values: seq<Value>, n: nat, scope: Scope, purpose: Purpose, depth: nat)
    requires n == 0 || n + 2 <= |values|
    requires depth <= scope.depth
    ensures Repair(OwnProjected(values, n, Some(scope)), purpose, depth) == OwnProjected(values, n, Some(scope))
  {
    if n > 0 {
      RepairInner(values, n - 1, scope, purpose, depth);
      var last := OptionToSeq(ProjectAt(values, n - 1, Some(scope)));
      RepairAppend(OwnProjected(values, n - 1, Some(scope)), last, purpose, depth);
    }
  }

  /** Repairing the descendants of a value walked under an outer scope walks it under the list's scope. */
  lemma {:induction false} RepairWalk(v: Value, before: Option<Scope>, inner: nat, purpose: Purpose, depth: nat)
    requires Outer(before, depth) && depth < inner
    ensures Repair(StreamWalk(v, before, inner), purpose, depth) == StreamWalk(v, Some(Scope(purpose, depth)), inner)
    decreases v, 1
  {
    hide OwnProjected, StreamWalkAll, Declared, RepairOne, Repair;
    if v.List? {
      var values, n := v.items, WindowCount(v.items);
      var scope := ScopeOf(values, before, inner);
      RepairAppend(OwnProjected(values, n, scope), StreamWalkAll(values, scope, inner + 1), purpose, depth);
      if Declared(values).Some? {
        RepairInner(values, n, scope.value, purpose, depth);
        KeepWalkAll(values, scope.value, inner + 1, purpose, depth);
      } else {
        RepairOwn(values, n, before, purpose, depth);
        RepairWalkAll(values, before, inner + 1, purpose, depth);
      }
    } else {
      NothingToRepair(purpose, depth);
    }
  }

  lemma NothingToRepair(purpose: Purpose, depth: nat)
    ensures Repair([], purpose, depth) == []
  {
  }

  lemma {:induction false} RepairWalkAll(
      values: seq<Value>, before: Option<Scope>, inner: nat, purpose: Purpose, depth: nat)
    requires Outer(before, depth) && depth < inner
    ensures Repair(StreamWalkAll(values, before, inner), purpose, depth)
         == StreamWalkAll(values, Some(Scope(purpose, depth)), inner)
    decreases values, 0
  {
    hide StreamWalk, RepairOne, Repair;
    if values == [] {
      NothingToRepair(purpose, depth);
    } else {
      RepairAppend(StreamWalk(values[0], before, inner), StreamWalkAll(values[1..], before, inner), purpose, depth);
      RepairWalk(values[0], before, inner, purpose, depth);
      RepairWalkAll(values[1..], before, inner, purpose, depth);
    }
  }

  /** Descendants whose scope is at least as deep as the list keep it. */
  lemma {:induction false} KeepWalk(v: Value, scope: Scope, inner: nat, purpose: Purpose, depth: nat)
    requires depth <= scope.depth && depth <= inner
    ensures Repair(StreamWalk(v, Some(scope), inner), purpose, depth) == StreamWalk(v, Some(scope), inner)
    decreases v, 1
  {
    hide OwnProjected, StreamWalkAll, Declared, RepairOne, Repair;
    if v.List? {
      var values, n := v.items, WindowCount(v.items);
      var own := ScopeOf(values, Some(scope), inner);
      RepairAppend(OwnProjected(values, n, own), StreamWalkAll(values, own, inner + 1), purpose, depth);
      RepairInner(values, n, own.value, purpose, depth);
      KeepWalkAll(values, own.value, inner + 1, purpose, depth);
    } else {
      NothingToRepair(purpose, depth);
    }
  }

  lemma {:induction false} KeepWalkAll(values: seq<Value>, scope: Scope, inner: nat, purpose: Purpose, depth: nat)
    requires depth <= scope.depth && depth <= inner
    ensures Repair(StreamWalkAll(values, Some(scope), inner), purpose, depth)
         == StreamWalkAll(values, Some(scope), inner)
    decreases values, 0
  {
    hide StreamWalk, RepairOne, Repair;
    if values == [] {
      NothingToRepair(purpose, depth);
    } else {
      RepairAppend(StreamWalk(values[0], Some(scope), inner), StreamWalkAll(values[1..], Some(scope), inner), purpose,
                   depth);
      KeepWalk(values[0], scope, inner, purpose, depth);
      KeepWalkAll(values[1..], scope, inner, purpose, depth);
    }
  }
}
