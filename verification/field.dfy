/** The custom field descriptor: a named, typed field declared at run time on
    a parent document and installed as an attribute on a target class.

    The parent is reduced to what the descriptor reads from it: the list of
    fields of its association (the descriptor's siblings, itself included)
    and the association's naming counter. The target class is a schema of
    attributes plus a log of everything `apply` asked of it, in order. */
module CustomFields {
  import opened Wrappers
  import opened Text
  import Slug

  /** Mongoid's `_id`: opaque, only compared for equality. */
  type FieldId = nat

  /** The stored attributes of a field (`labelText` is the `label` attribute;
      `label` is a Dafny keyword); `None` is Ruby's `nil`. */
  datatype Field = Field(
    id: FieldId,
    labelText: Option<string>,
    alias: Option<string>,
    name: Option<string>,
    kind: Option<string>,
    position: int)

  /** The embedding document, seen through the field's association:
      `<association>_counter` and the `<association>` list. */
  datatype Parent = Parent(counter: Option<int>, fields: seq<Field>)

  /** A Ruby class, identified by its name. */
  datatype TypeRef = TypeRef(className: string)

  const StringType: TypeRef := TypeRef("String")

  /** The constants `constantize` can reach, by name. */
  type Registry = map<string, TypeRef>

  /** Why resolving a kind to a class raised. */
  datatype TypeError =
    | NoKind                          // `nil.constantize`
    | UninitializedConstant(name: string)

  /** One request `apply` made of the target class. */
  datatype Event =
    | AddField(name: Option<string>, fieldType: TypeRef)
    | CategoryHook(name: Option<string>)
    | DefaultHook(name: Option<string>)

  /** The target class: its declared attributes, keyed by the name passed to
      `field` (overwritten on redeclaration), and the requests made of it. */
  datatype Schema = Schema(attributes: map<Option<string>, TypeRef>, log: seq<Event>)

  datatype Attribute = Label | Kind

  datatype ValidationError = Blank(attribute: Attribute) | Taken(attribute: Attribute)

  const DefaultPosition: int := 0

  /** A field as created with only a label and a kind. */
  function NewField(id: FieldId, labelText: Option<string>, kind: Option<string>): (f: Field)
    ensures f.alias.None? && f.name.None? && f.position == 0
    ensures f.id == id && f.labelText == labelText && f.kind == kind
  {
    Field(id, labelText, None, None, kind, DefaultPosition)
  }

  // ---------------------------------------------------------------------
  // Validation

  /** The fields of the parent's association, the field itself included. */
  function Siblings(p: Parent): seq<Field> {
    p.fields
  }

  /** `g` has `f`'s label and is another document. */
  predicate IsDuplicateOf(f: Field, g: Field) {
    g.labelText == f.labelText && g.id != f.id
  }

  /** `detect`: the first sibling that duplicates `f`'s label, if any. */
  function FindDuplicate(f: Field, sibs: seq<Field>): (r: Option<Field>)
    ensures r.None? <==> forall i :: 0 <= i < |sibs| ==> !IsDuplicateOf(f, sibs[i])
    ensures r.Some? ==> exists i :: 0 <= i < |sibs| && sibs[i] == r.value && IsDuplicateOf(f, r.value)
                                   && forall j :: 0 <= j < i ==> !IsDuplicateOf(f, sibs[j])
  {
    if sibs == [] then None
    else if IsDuplicateOf(f, sibs[0]) then Some(sibs[0])
    else
      var r := FindDuplicate(f, sibs[1..]);
      assert r.Some? ==> exists i :: 1 <= i < |sibs| && sibs[i] == r.value && IsDuplicateOf(f, r.value)
                                    && forall j :: 0 <= j < i ==> !IsDuplicateOf(f, sibs[j]) by {
        if r.Some? {
          var k :| 0 <= k < |sibs[1..]| && sibs[1..][k] == r.value
                   && forall j :: 0 <= j < k ==> !IsDuplicateOf(f, sibs[1..][j]);
          assert forall j :: 0 <= j < k + 1 ==> !IsDuplicateOf(f, sibs[j]) by {
            forall j | 0 <= j < k + 1 ensures !IsDuplicateOf(f, sibs[j]) {
              if j > 0 { assert sibs[j] == sibs[1..][j - 1]; }
            }
          }
        }
      }
      assert r.None? ==> forall i :: 0 <= i < |sibs| ==> !IsDuplicateOf(f, sibs[i]) by {
        if r.None? {
          forall i | 0 <= i < |sibs| ensures !IsDuplicateOf(f, sibs[i]) {
            if i > 0 { assert sibs[i] == sibs[1..][i - 1]; }
          }
        }
      }
      r
  }

  /** The errors `valid?` collects: presence of label and kind, then
      uniqueness of the label among the siblings. */
  function Validate(f: Field, p: Parent): (errors: seq<ValidationError>)
    ensures Blank(Label) in errors <==> IsBlank(f.labelText)
    ensures Blank(Kind) in errors <==> IsBlank(f.kind)
    ensures Taken(Label) in errors <==> exists i :: 0 <= i < |p.fields| && IsDuplicateOf(f, p.fields[i])
    ensures Taken(Kind) !in errors
    ensures forall i, j :: 0 <= i < j < |errors| ==> errors[i] != errors[j]
  {
    (if IsBlank(f.labelText) then [Blank(Label)] else [])
    + (if IsBlank(f.kind) then [Blank(Kind)] else [])
    + (if FindDuplicate(f, Siblings(p)).Some? then [Taken(Label)] else [])
  }

  /** `valid?`: no validation error. */
  predicate IsValid(f: Field, p: Parent) {
    Validate(f, p) == []
  }

  /** A field is valid exactly when label and kind are present and no other
      sibling carries its label. */
  lemma ValidIff(f: Field, p: Parent)
    ensures IsValid(f, p) <==>
      && !IsBlank(f.labelText)
      && !IsBlank(f.kind)
      && forall i :: 0 <= i < |p.fields| ==> !IsDuplicateOf(f, p.fields[i])
  {
    var errors := Validate(f, p);
    if !IsValid(f, p) {
      assert errors[0] in errors;
      match errors[0]
      case Blank(_) =>
      case Taken(_) =>
    }
  }

  /** Two different documents under one parent with the same label are both
      invalid. */
  lemma SharedLabelInvalidatesBoth(p: Parent, i: nat, j: nat)
    requires i < |p.fields| && j < |p.fields|
    requires p.fields[i].labelText == p.fields[j].labelText && p.fields[i].id != p.fields[j].id
    ensures Taken(Label) in Validate(p.fields[i], p) && Taken(Label) in Validate(p.fields[j], p)
    ensures !IsValid(p.fields[i], p) && !IsValid(p.fields[j], p)
  {
    assert IsDuplicateOf(p.fields[i], p.fields[j]);
    assert IsDuplicateOf(p.fields[j], p.fields[i]);
  }

  /** The field's own entry among its siblings never makes its label taken:
      adding any entry with the field's id changes no validation error. */
  lemma OwnEntryIsNoDuplicate(f: Field, p: Parent, g: Field)
    requires g.id == f.id
    ensures Validate(f, Parent(p.counter, p.fields + [g])) == Validate(f, p)
  {
    var sibs := p.fields + [g];
    assert forall i :: 0 <= i < |p.fields| ==> sibs[i] == p.fields[i];
    assert !IsDuplicateOf(f, sibs[|p.fields|]);
  }

  /** A new field with a label and a kind is valid as the only document of
      its parent. */
  lemma NewFieldAloneIsValid(id: FieldId, labelText: Option<string>, kind: Option<string>)
    requires !IsBlank(labelText) && !IsBlank(kind)
    ensures IsValid(NewField(id, labelText, kind), Parent(None, [NewField(id, labelText, kind)]))
  {
    var f := NewField(id, labelText, kind);
    ValidIff(f, Parent(None, [f]));
  }

  // ---------------------------------------------------------------------
  // Kinds and types

  const StringKind: string := "String"
  const TextKind: string := "Text"
  const CategoryKind: string := "Category"

  /** `string?` */
  predicate IsString(f: Field) {
    f.kind == Some(StringKind)
  }

  /** `text?` */
  predicate IsText(f: Field) {
    f.kind == Some(TextKind)
  }

  /** `category?` */
  predicate IsCategory(f: Field) {
    f.kind == Some(CategoryKind)
  }

  /** The three kinds stored as plain strings. */
  predicate IsBaseKind(f: Field) {
    IsString(f) || IsText(f) || IsCategory(f)
  }

  /** At most one kind predicate holds, and one holds exactly for the three
      base kind names. */
  lemma KindPredicatesExclusive(f: Field)
    ensures !(IsString(f) && IsText(f))
    ensures !(IsString(f) && IsCategory(f))
    ensures !(IsText(f) && IsCategory(f))
    ensures IsBaseKind(f) <==> f.kind.Some? && f.kind.value in {StringKind, TextKind, CategoryKind}
  {
  }

  /** `field_type`: base kinds are stored as `String`; any other kind names
      a class looked up in the registry, and the lookup may raise. */
  function FieldType(f: Field, registry: Registry): (r: Result<TypeRef, TypeError>)
    ensures IsBaseKind(f) ==> r == Success(StringType)
    ensures r.Success? <==> IsBaseKind(f) || (f.kind.Some? && f.kind.value in registry)
    ensures r.Success? && !IsBaseKind(f) ==> r.value == registry[f.kind.value]
    ensures f.kind.None? ==> r == Failure(NoKind)
    ensures r.Failure? && f.kind.Some? ==> r.error == UninitializedConstant(f.kind.value)
  {
    if IsBaseKind(f) then Success(StringType)
    else match f.kind
      case None => Failure(NoKind)
      case Some(k) => if k in registry then Success(registry[k]) else Failure(UninitializedConstant(k))
  }

  /** Registering more classes never changes a kind that already resolved. */
  lemma FieldTypeStableUnderRegistration(f: Field, registry: Registry, larger: Registry)
    requires forall k :: k in registry ==> k in larger && larger[k] == registry[k]
    requires FieldType(f, registry).Success?
    ensures FieldType(f, larger) == FieldType(f, registry)
  {
  }

  // ---------------------------------------------------------------------
  // Applying a field to a class

  /** `klass.field name, :type => t`: declares (or redeclares) an attribute. */
  function DeclareField(s: Schema, name: Option<string>, t: TypeRef): (r: Schema)
    ensures name in r.attributes && r.attributes[name] == t
    ensures forall n :: n in s.attributes && n != name ==> n in r.attributes && r.attributes[n] == s.attributes[n]
    ensures r.attributes.Keys == s.attributes.Keys + {name}
    ensures r.log == s.log + [AddField(name, t)]
  {
    Schema(s.attributes[name := t], s.log + [AddField(name, t)])
  }

  /** The kind-specific hook `apply` dispatches to after declaring the field. */
  function HookFor(f: Field): (e: Event)
    ensures e.CategoryHook? <==> IsCategory(f)
    ensures e.DefaultHook? <==> !IsCategory(f)
    ensures e.name == f.name
  {
    if IsCategory(f) then CategoryHook(f.name) else DefaultHook(f.name)
  }

  /** `apply(klass)`: an invalid field is skipped silently; a valid one
      declares its attribute under `_name` with its resolved type and then
      runs exactly one hook. A failing type lookup raises before anything is
      declared. */
  function Apply(f: Field, p: Parent, registry: Registry, s: Schema): (r: Result<Schema, TypeError>)
    ensures !IsValid(f, p) ==> r == Success(s)
    ensures IsValid(f, p) ==> (r.Success? <==> FieldType(f, registry).Success?)
    ensures IsValid(f, p) && r.Failure? ==> r.error == FieldType(f, registry).error
    ensures IsValid(f, p) && r.Success? ==>
      && f.name in r.value.attributes
      && r.value.attributes[f.name] == FieldType(f, registry).value
      && (forall n :: n in s.attributes && n != f.name ==> n in r.value.attributes && r.value.attributes[n] == s.attributes[n])
      && r.value.attributes.Keys == s.attributes.Keys + {f.name}
      && |r.value.log| == |s.log| + 2
      && r.value.log[..|s.log|] == s.log
      && r.value.log[|s.log|] == AddField(f.name, FieldType(f, registry).value)
      && r.value.log[|s.log| + 1] == HookFor(f)
  {
    if !IsValid(f, p) then Success(s)
    else
      var t :- FieldType(f, registry);
      var declared := DeclareField(s, f.name, t);
      Success(Schema(declared.attributes, declared.log + [HookFor(f)]))
  }

  function CategoryHookCount(log: seq<Event>): nat {
    if log == [] then 0
    else CategoryHookCount(log[..|log| - 1]) + (if log[|log| - 1].CategoryHook? then 1 else 0)
  }

  function DefaultHookCount(log: seq<Event>): nat {
    if log == [] then 0
    else DefaultHookCount(log[..|log| - 1]) + (if log[|log| - 1].DefaultHook? then 1 else 0)
  }

  lemma {:induction false} HookCountsAppend(a: seq<Event>, b: seq<Event>)
    ensures CategoryHookCount(a + b) == CategoryHookCount(a) + CategoryHookCount(b)
    ensures DefaultHookCount(a + b) == DefaultHookCount(a) + DefaultHookCount(b)
    decreases |b|
  {
    if b != [] {
      var b' := b[..|b| - 1];
      assert (a + b)[..|a + b| - 1] == a + b';
      HookCountsAppend(a, b');
    } else {
      assert a + b == a;
    }
  }

  /** A successful `apply` runs the category hook once and the default hook
      never for a category field, and the other way round for every other
      kind. */
  lemma ApplyHookCounts(f: Field, p: Parent, registry: Registry, s: Schema)
    requires IsValid(f, p) && FieldType(f, registry).Success?
    ensures Apply(f, p, registry, s).Success?
    ensures CategoryHookCount(Apply(f, p, registry, s).value.log)
            == CategoryHookCount(s.log) + (if IsCategory(f) then 1 else 0)
    ensures DefaultHookCount(Apply(f, p, registry, s).value.log)
            == DefaultHookCount(s.log) + (if IsCategory(f) then 0 else 1)
  {
    var r := Apply(f, p, registry, s).value;
    var added := [AddField(f.name, FieldType(f, registry).value), HookFor(f)];
    assert r.log == s.log + added;
    HookCountsAppend(s.log, added);
    assert added[..1] == [added[0]];
    assert added[..0] == [];
  }

  /** Applying a field twice declares the same attributes as applying it
      once: redeclaration overwrites. */
  lemma ApplyTwiceSameAttributes(f: Field, p: Parent, registry: Registry, s: Schema)
    requires Apply(f, p, registry, s).Success?
    ensures Apply(f, p, registry, Apply(f, p, registry, s).value).Success?
    ensures Apply(f, p, registry, Apply(f, p, registry, s).value).value.attributes
            == Apply(f, p, registry, s).value.attributes
  {
  }

  // ---------------------------------------------------------------------
  // Naming

  const NamePrefix: string := "custom_field_"

  /** The generated name for counter value `n`. */
  function GeneratedName(n: int): string {
    NamePrefix + IntToDecimal(n)
  }

  /** Different counter values give different names. */
  lemma GeneratedNameInjective(m: int, n: int)
    requires m != n
    ensures GeneratedName(m) != GeneratedName(n)
  {
    IntToDecimalInjective(m, n);
    assert GeneratedName(m)[|NamePrefix|..] == IntToDecimal(m);
    assert GeneratedName(n)[|NamePrefix|..] == IntToDecimal(n);
  }

  /** `increment_counter!`: a `nil` counter counts as 0; the next value is
      stored back and returned. Nothing else of the parent changes. */
  function IncrementCounter(p: Parent): (r: (int, Parent))
    ensures r.0 == p.counter.GetOr(0) + 1
    ensures r.1.counter == Some(r.0)
    ensures r.1.fields == p.fields
    ensures r.1.counter.GetOr(0) > p.counter.GetOr(0)
  {
    var next := p.counter.GetOr(0) + 1;
    (next, p.(counter := Some(next)))
  }

  /** The parent's list after `f` changed in place: every entry that is the
      same document as `f` now reads as `f`. */
  function Refresh(fields: seq<Field>, f: Field): (r: seq<Field>)
    ensures |r| == |fields|
    ensures forall i :: 0 <= i < |fields| ==> r[i] == (if fields[i].id == f.id then f else fields[i])
  {
    if fields == [] then []
    else [if fields[0].id == f.id then f else fields[0]] + Refresh(fields[1..], f)
  }

  /** `set_unique_name!`: keeps a name that is set; otherwise names the
      field after the next counter value. The field is one of the parent's
      documents, so its entry in the parent's list is renamed with it. */
  function SetUniqueName(f: Field, p: Parent): (r: (Field, Parent))
    ensures f.name.Some? ==> r == (f, p)
    ensures f.name.None? ==>
      && r.0 == f.(name := Some(GeneratedName(p.counter.GetOr(0) + 1)))
      && r.1.counter == Some(p.counter.GetOr(0) + 1)
    ensures r.0.name.Some?
    ensures |r.1.fields| == |p.fields|
    ensures forall i :: 0 <= i < |p.fields| ==>
      r.1.fields[i] == (if p.fields[i].id == f.id && f.name.None? then r.0 else p.fields[i])
  {
    if f.name.Some? then (f, p)
    else
      var (next, q) := IncrementCounter(p);
      var g := f.(name := Some(GeneratedName(next)));
      (g, q.(fields := Refresh(q.fields, g)))
  }

  /** Once an unnamed field is named, its own entry in the parent's list carries the
      name, so naming that entry again keeps it and leaves the counter. */
  lemma NamedEntryKeepsName(f: Field, p: Parent, i: nat)
    requires f.name.None? && i < |p.fields| && p.fields[i].id == f.id
    ensures var (g, q) := SetUniqueName(f, p); q.fields[i] == g && SetUniqueName(q.fields[i], q) == (g, q)
  {
  }

  /** Naming twice is naming once: the second call changes neither the
      field nor the counter. */
  lemma SetUniqueNameIdempotent(f: Field, p: Parent)
    ensures var (g, q) := SetUniqueName(f, p); SetUniqueName(g, q) == (g, q)
  {
  }

  /** The counter never decreases, and grows by exactly one when a name was
      generated. */
  lemma SetUniqueNameCounter(f: Field, p: Parent)
    ensures SetUniqueName(f, p).1.counter.GetOr(0) == p.counter.GetOr(0) + (if f.name.None? then 1 else 0)
  {
  }

  /** Number of fields without a name. */
  function CountUnnamed(fields: seq<Field>): nat {
    if fields == [] then 0
    else CountUnnamed(fields[..|fields| - 1]) + (if fields[|fields| - 1].name.None? then 1 else 0)
  }

  lemma {:induction false} CountUnnamedPrefix(fields: seq<Field>, i: nat, j: nat)
    requires i < j <= |fields| && fields[i].name.None?
    ensures CountUnnamed(fields[..i]) < CountUnnamed(fields[..j])
    decreases j - i
  {
    if j == i + 1 {
      assert fields[..j][..i] == fields[..i];
    } else {
      CountUnnamedPrefix(fields, i, j - 1);
      assert fields[..j][..j - 1] == fields[..j - 1];
    }
  }

  /** The ids of a list of fields. */
  function Ids(fields: seq<Field>): set<FieldId> {
    set j | 0 <= j < |fields| :: fields[j].id
  }

  /** `q`'s list is `p`'s, entry for entry the same documents, and only
      entries whose id is in `touched` may differ. */
  predicate ChangedOnlyAt(p: Parent, q: Parent, touched: set<FieldId>) {
    && |q.fields| == |p.fields|
    && (forall i :: 0 <= i < |p.fields| ==> q.fields[i].id == p.fields[i].id)
    && (forall i :: 0 <= i < |p.fields| && p.fields[i].id !in touched ==> q.fields[i] == p.fields[i])
  }

  /** Naming one more field extends the set of touched documents by its id. */
  lemma NameStepChangesOnlyItsEntry(p: Parent, q: Parent, f: Field, touched: set<FieldId>)
    requires ChangedOnlyAt(p, q, touched)
    ensures ChangedOnlyAt(p, SetUniqueName(f, q).1, touched + {f.id})
  {
    var q' := SetUniqueName(f, q).1;
    forall i | 0 <= i < |p.fields|
      ensures q'.fields[i].id == p.fields[i].id
    {
      assert q'.fields[i] == (if q.fields[i].id == f.id && f.name.None? then SetUniqueName(f, q).0 else q.fields[i]);
    }
  }

  /** What naming the fields of a list in turn makes of entry `i`, starting
      from counter value `c0`: a named field is kept, an unnamed one takes
      the counter value after the unnamed fields before it. */
  function NamedInTurn(fields: seq<Field>, c0: int, i: nat): Field
    requires i < |fields|
  {
    if fields[i].name.Some? then fields[i]
    else fields[i].(name := Some(GeneratedName(c0 + CountUnnamed(fields[..i]) + 1)))
  }

  /** Two unnamed fields of one list are given different names. */
  lemma NamedInTurnDistinct(fields: seq<Field>, c0: int, i: nat, j: nat)
    requires i < j < |fields| && fields[i].name.None? && fields[j].name.None?
    ensures NamedInTurn(fields, c0, i).name != NamedInTurn(fields, c0, j).name
  {
    CountUnnamedPrefix(fields, i, j);
    GeneratedNameInjective(c0 + CountUnnamed(fields[..i]) + 1, c0 + CountUnnamed(fields[..j]) + 1);
  }

  /** No two entries of the list are the same document. */
  predicate DistinctIds(fields: seq<Field>) {
    forall i, j :: 0 <= i < j < |fields| ==> fields[i].id != fields[j].id
  }

  /** Naming the next entry of the parent's own list renames that entry and
      no other. */
  lemma OwnListStep(fields: seq<Field>, named: seq<Field>, q: Parent, k: nat)
    requires k < |fields| && |named| == k && DistinctIds(fields)
    requires forall i :: 0 <= i < k ==> named[i].id == fields[i].id
    requires q.fields == named + fields[k..]
    ensures SetUniqueName(fields[k], q).1.fields == named + [SetUniqueName(fields[k], q).0] + fields[k + 1..]
  {
    var (g, q') := SetUniqueName(fields[k], q);
    var expected := named + [g] + fields[k + 1..];
    if fields[k].name.None? {
      forall i | 0 <= i < |q.fields|
        ensures q'.fields[i] == expected[i]
      {
        if i < k {
          assert q.fields[i] == named[i];
        } else if i > k {
          assert q.fields[i] == fields[i];
        }
      }
    } else {
      assert fields[k..] == [fields[k]] + fields[k + 1..];
    }
  }

  /** `set_unique_name!` on each field of a list in turn, all documents of
      one parent: named fields are kept, unnamed ones get consecutive counter
      values, no two generated names collide, and the parent's list changes
      only at entries that are one of the named documents. */
  method NameFields(fields: seq<Field>, p: Parent) returns (named: seq<Field>, q: Parent)
    ensures |named| == |fields|
    ensures q.counter.GetOr(0) == p.counter.GetOr(0) + CountUnnamed(fields)
    ensures forall i :: 0 <= i < |fields| ==> named[i] == NamedInTurn(fields, p.counter.GetOr(0), i)
    ensures forall i :: 0 <= i < |fields| && fields[i].name.Some? ==> named[i] == fields[i]
    ensures forall i, j :: 0 <= i < j < |fields| && fields[i].name.None? && fields[j].name.None? ==>
      named[i].name != named[j].name
    ensures ChangedOnlyAt(p, q, Ids(fields))
  {
    var c0 := p.counter.GetOr(0);
    named := [];
    q := p;
    var k := 0;
    while k < |fields|
      invariant 0 <= k <= |fields|
      invariant |named| == k
      invariant q.counter.GetOr(0) == c0 + CountUnnamed(fields[..k])
      invariant forall i :: 0 <= i < k ==> named[i] == NamedInTurn(fields, c0, i)
      invariant ChangedOnlyAt(p, q, Ids(fields[..k]))
    {
      NameStepChangesOnlyItsEntry(p, q, fields[k], Ids(fields[..k]));
      assert Ids(fields[..k + 1]) == Ids(fields[..k]) + {fields[k].id};
      var step := SetUniqueName(fields[k], q);
      assert step.0 == NamedInTurn(fields, c0, k);
      assert fields[..k + 1][..k] == fields[..k];
      named := named + [step.0];
      q := step.1;
      k := k + 1;
    }
    assert fields[..k] == fields;
    forall i, j | 0 <= i < j < |fields| && fields[i].name.None? && fields[j].name.None?
      ensures named[i].name != named[j].name
    {
      NamedInTurnDistinct(fields, c0, i, j);
    }
  }

  /** `set_unique_name!` on every field of the parent's own list in turn:
      each entry ends up as `NamedInTurn` says and the parent's list holds
      exactly the named fields, so no entry is left stale. Mongoid ids are
      unique within an embedded list. */
  method NameOwnFields(p: Parent) returns (named: seq<Field>, q: Parent)
    requires DistinctIds(p.fields)
    ensures |named| == |p.fields|
    ensures forall i :: 0 <= i < |p.fields| ==> named[i] == NamedInTurn(p.fields, p.counter.GetOr(0), i)
    ensures q.counter.GetOr(0) == p.counter.GetOr(0) + CountUnnamed(p.fields)
    ensures q.fields == named
  {
    var fields, c0 := p.fields, p.counter.GetOr(0);
    named := [];
    q := p;
    var k := 0;
    while k < |fields|
      invariant 0 <= k <= |fields|
      invariant |named| == k
      invariant q.counter.GetOr(0) == c0 + CountUnnamed(fields[..k])
      invariant forall i :: 0 <= i < k ==> named[i] == NamedInTurn(fields, c0, i)
      invariant forall i :: 0 <= i < k ==> named[i].id == fields[i].id
      invariant q.fields == named + fields[k..]
    {
      OwnListStep(fields, named, q, k);
      var step := SetUniqueName(fields[k], q);
      assert step.0 == NamedInTurn(fields, c0, k);
      assert fields[..k + 1][..k] == fields[..k];
      named := named + [step.0];
      q := step.1;
      k := k + 1;
    }
    assert fields[..k] == fields;
    assert fields[k..] == [];
  }

  // ---------------------------------------------------------------------
  // Alias

  /** `set_alias`: unless label and alias are both blank, the alias becomes
      the normalised form of the alias, or of the label when the alias is
      `nil`. A blank but non-`nil` alias does not fall back to the label. */
  function SetAlias(f: Field): (g: Field)
    ensures IsBlank(f.labelText) && IsBlank(f.alias) ==> g == f
    ensures !(IsBlank(f.labelText) && IsBlank(f.alias)) ==>
      && (f.alias.None? ==> f.labelText.Some?)
      && g == f.(alias := Some(Slug.Normalize(if f.alias.Some? then f.alias.value else f.labelText.value)))
    ensures !(IsBlank(f.labelText) && IsBlank(f.alias)) ==> g.alias.Some? && Slug.IsSlug(g.alias.value)
  {
    if IsBlank(f.labelText) && IsBlank(f.alias) then f
    else
      var source := if f.alias.Some? then f.alias.value else f.labelText.value;
      Slug.NormalizeIsSlug(source);
      f.(alias := Some(Slug.Normalize(source)))
  }

  /** `safe_alias`: updates the alias and returns it. */
  function SafeAlias(f: Field): (r: (Option<string>, Field))
    ensures r.1 == SetAlias(f)
    ensures r.0 == r.1.alias
    ensures r.0 != f.alias ==> r.0.Some? && Slug.IsSlug(r.0.value)
  {
    var g := SetAlias(f);
    (g.alias, g)
  }

  /** Deriving the alias twice is deriving it once. */
  lemma SetAliasIdempotent(f: Field)
    ensures SetAlias(SetAlias(f)) == SetAlias(f)
  {
    if !(IsBlank(f.labelText) && IsBlank(f.alias)) {
      var source := if f.alias.Some? then f.alias.value else f.labelText.value;
      Slug.NormalizeIdempotent(source);
    }
  }

  /** Only the alias changes. */
  lemma SetAliasOnlyAlias(f: Field)
    ensures SetAlias(f).(alias := f.alias) == f
  {
  }

  /** An empty alias is kept even when a label is present: `""` is not
      `nil`, so `_alias || label` picks it. */
  lemma EmptyAliasKept(f: Field)
    requires f.alias == Some("") && !IsBlank(f.labelText)
    ensures SafeAlias(f).0 == Some("")
  {
    assert Slug.ReplaceDisallowed("") == "";
  }

  /** With a present label or alias, the returned alias is the normalised
      alias source. */
  lemma SafeAliasFromSource(f: Field, source: string, result: string)
    requires !IsBlank(f.labelText) || !IsBlank(f.alias)
    requires source == (if f.alias.Some? then f.alias.value else f.labelText.value)
    requires Slug.Normalize(source) == result
    ensures SafeAlias(f).0 == Some(result)
  {
  }

  /** A field labelled "Publication Date" with no alias gets the alias
      "publication_date". The literal is passed as a parameter pinned by `requires`: stated
      directly, the verifier unfolds the normaliser on it and runs out of
      resource. */
  lemma AliasFromLabelExample(f: Field, text: string)
    requires text == "Publication Date" && f.labelText == Some(text) && f.alias.None?
    ensures SafeAlias(f).0 == Some("publication_date")
  {
    assert !IsSpace(text[0]);
    Slug.NormalizeLabelExample(text);
    SafeAliasFromSource(f, text, "publication_date");
  }

  /** An explicit alias "pubDate" wins over the label and becomes "pubdate".
      The literal is passed as a parameter pinned by `requires`: stated
      directly, the verifier unfolds the normaliser on it and runs out of
      resource. */
  lemma AliasOverrideExample(f: Field, alias: string)
    requires alias == "pubDate" && f.alias == Some(alias)
    ensures SafeAlias(f).0 == Some("pubdate")
  {
    assert !IsSpace(alias[0]);
    assert !IsBlank(f.alias);
    Slug.NormalizeAliasExample(alias);
    SafeAliasFromSource(f, alias, "pubdate");
  }
}
