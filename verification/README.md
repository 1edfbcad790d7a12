# Custom field descriptor — a Dafny model

This project models `CustomFields::Field`, the descriptor with which a parent
document (a content type, an asset collection) declares a named, typed custom
field at run time and then installs it as an attribute on a target class.

The model covers:

- **validation** (`valid?`): `label` and `kind` must not be blank, and no
  other sibling may carry the same `label` (case-sensitive; a sibling with the
  field's own `_id` is the field itself and never counts);
- **kind predicates** `string?`, `text?`, `category?` and **type resolution**
  `field_type`: the three base kinds are stored as `String`, any other kind
  names a class looked up by name, which may raise;
- **application** `apply(klass)`: an invalid field is skipped silently; a
  valid one declares one attribute under `_name` and then runs exactly one of
  two hooks, the category hook for `Category` fields and the default hook
  otherwise;
- **naming** `set_unique_name!` / `increment_counter!`: `_name` becomes
  `"custom_field_" + n` where `n` is the parent's per-association counter
  (a `nil` counter counts as 0) plus one; a name already set is kept and the
  counter is then left alone;
- **alias** `set_alias` / `safe_alias`: unless label and alias are both blank,
  the alias becomes the normalised form of the alias, or of the label when the
  alias is `nil`.

Files:

- `wrappers.dfy` — `Option` (Ruby's `nil`) and `Result` (a call that raises).
- `text.dfy` — `blank?`, ASCII `downcase`, the decimal rendering of integers
  used by string interpolation, with a parse-back round trip.
- `slug.dfy` — a simplified ASCII model of `parameterize('_')` and the alias
  normaliser `parameterize('_').downcase`, with its idempotence.
- `field.dfy` — module `CustomFields`: the field, the parent, the target
  schema, the type registry and every operation above.

Modelling choices:

- Ruby `nil` is `None`. `label`, `_alias`, `_name` and `kind` are
  `Option<string>`; the parent counter is `Option<int>`. `label` is a Dafny
  keyword, so the record field is called `labelText`.
- The parent is a record holding the counter and the field list of the one
  association the field belongs to; that list is the field's siblings and
  includes the field itself. Because the field is one of those documents,
  `set_unique_name!` also renames every entry of the list that has the
  field's `_id`. Naming the parent's whole list (`NameOwnFields`) assumes its
  entries have distinct `_id`s, as the documents of one embedded list do.
- The target class is a `Schema`: a map from the name passed to `field` to the
  declared type (redeclaring overwrites), plus a log of every request `apply`
  made (`AddField`, `CategoryHook`, `DefaultHook`), so the order "attribute
  first, then one hook" is stated on the log.
- `constantize` is a `Registry`, a finite map from class name to class.
  An unknown name gives `Failure(UninitializedConstant(name))`, and a `nil`
  kind gives `Failure(NoKind)`. `apply` propagates that failure before
  declaring anything, because `field_type` is evaluated before `klass.field`
  runs.

Behaviour of the code worth noting:

- `apply` does not generate a missing name: it declares the attribute under
  `_name` as it is, `nil` included. Generating the name is `set_unique_name!`'s
  job. What calls it is not part of this file.
- `set_alias` falls back to the label only when the alias is `nil`
  (`_alias || label`). An empty or whitespace alias is not `nil`, so it is
  normalised as it is and the label is ignored (`EmptyAliasKept`).
- Presence means "not `blank?`": a whitespace-only label or kind is missing
  too, not only an empty one.
- `increment_counter!` is a plain read-then-write with no locking.

## Model

| member | source | states |
|---|---|---|
| CustomFields.NewField | vendor/plugins/custom_fields/lib/custom_fields/field.rb:12-16 | a new field has no alias and no name, and its position defaults to 0 |
| CustomFields.FindDuplicate | vendor/plugins/custom_fields/lib/custom_fields/field.rb:76 | `detect` returns nothing exactly when no sibling has the same label and another id; otherwise it returns the first sibling that does |
| CustomFields.Validate | vendor/plugins/custom_fields/lib/custom_fields/field.rb:19-20 | a blank-label error exactly when the label is nil or whitespace, a blank-kind error exactly when the kind is, a taken-label error exactly when some sibling with another id has an equal label, no error twice and nothing else |
| CustomFields.ValidIff | vendor/plugins/custom_fields/lib/custom_fields/field.rb:75-80 | a field is valid if and only if its label and kind are present and no sibling with a different id shares its label |
| CustomFields.SharedLabelInvalidatesBoth | vendor/plugins/custom_fields/lib/custom_fields/field.rb:76-78 | two different documents of one parent with equal labels each get the `:taken` error and are both invalid |
| CustomFields.OwnEntryIsNoDuplicate | vendor/plugins/custom_fields/lib/custom_fields/field.rb:76 | adding an entry with the field's own id to any sibling list changes none of its validation errors, so its own entry never makes its label taken |
| CustomFields.NewFieldAloneIsValid | vendor/plugins/custom_fields/lib/custom_fields/field.rb:19-20 | a new field with a present label and kind is valid as the only document of its parent |
| CustomFields.KindPredicatesExclusive | vendor/plugins/custom_fields/lib/custom_fields/field.rb:24-28 | at most one of `string?`, `text?`, `category?` holds, and one holds exactly when the kind is one of the three base names |
| CustomFields.FieldType | vendor/plugins/custom_fields/lib/custom_fields/field.rb:30-35 | base kinds resolve to `String`; any other kind resolves to its registry entry, and resolution fails exactly when the kind is nil or not registered |
| CustomFields.FieldTypeStableUnderRegistration | vendor/plugins/custom_fields/lib/custom_fields/field.rb:34 | registering more classes never changes a kind that already resolved |
| CustomFields.DeclareField | vendor/plugins/custom_fields/lib/custom_fields/field.rb:41 | `klass.field` makes the name map to the type, keeps every other attribute, and logs the declaration |
| CustomFields.HookFor | vendor/plugins/custom_fields/lib/custom_fields/field.rb:43-48 | the hook is the category hook exactly for `Category` fields and the default hook for every other kind |
| CustomFields.Apply | vendor/plugins/custom_fields/lib/custom_fields/field.rb:38-49 | an invalid field leaves the schema and log unchanged; a valid field fails exactly when its type does not resolve; otherwise it adds `_name` with the resolved type, leaves all other attributes unchanged, and appends the declaration followed by one hook |
| CustomFields.ApplyHookCounts | vendor/plugins/custom_fields/lib/custom_fields/field.rb:43-48 | a successful apply runs the category hook once and the default hook zero times for a category field, and the reverse otherwise |
| CustomFields.ApplyTwiceSameAttributes | vendor/plugins/custom_fields/lib/custom_fields/field.rb:41 | applying a field twice declares the same attributes as applying it once |
| CustomFields.IncrementCounter | vendor/plugins/custom_fields/lib/custom_fields/field.rb:91-95 | the returned value is the old counter (nil as 0) plus one; it is stored back, the counter grows, and the sibling list is untouched |
| CustomFields.SetUniqueName | vendor/plugins/custom_fields/lib/custom_fields/field.rb:82-84 | a set name is kept with the parent untouched; a missing name becomes `custom_field_` followed by the next counter value, which the counter now holds, and every entry of the parent's list with the field's id becomes the renamed field while all other entries stay; afterwards the field always has a name |
| CustomFields.NamedEntryKeepsName | vendor/plugins/custom_fields/lib/custom_fields/field.rb:82-84 | after an unnamed field is named, its own entry in the parent's list carries the new name, and naming that entry again changes neither it nor the counter |
| CustomFields.SetUniqueNameIdempotent | vendor/plugins/custom_fields/lib/custom_fields/field.rb:83 | a second `set_unique_name!` changes neither the field nor the counter |
| CustomFields.SetUniqueNameCounter | vendor/plugins/custom_fields/lib/custom_fields/field.rb:92-93 | the counter grows by exactly one when a name is generated and is unchanged otherwise |
| CustomFields.NamedInTurnDistinct | vendor/plugins/custom_fields/lib/custom_fields/field.rb:82-84 | two unnamed fields named in turn under one parent receive different names |
| CustomFields.GeneratedNameInjective | vendor/plugins/custom_fields/lib/custom_fields/field.rb:83 | different counter values give different generated names |
| CustomFields.NameFields | vendor/plugins/custom_fields/lib/custom_fields/field.rb:82-95 | naming the fields of a parent one after another keeps set names, gives unnamed fields consecutive counter values, advances the counter by the number of unnamed fields, gives no two fields the same generated name, and changes the parent's list only at entries that are one of the named documents |
| CustomFields.NameOwnFields | vendor/plugins/custom_fields/lib/custom_fields/field.rb:82-95 | naming every field of the parent's own list in turn gives each entry its kept or next generated name, advances the counter by the number of unnamed entries, and leaves the parent's list holding exactly the named fields |
| CustomFields.SetAlias | vendor/plugins/custom_fields/lib/custom_fields/field.rb:86-89 | nothing changes when label and alias are both blank; otherwise the alias becomes the normalised alias, or the normalised label when the alias is nil, and it is a slug |
| CustomFields.SafeAlias | vendor/plugins/custom_fields/lib/custom_fields/field.rb:68-71 | returns the alias after `set_alias`, and a changed alias is always a slug |
| CustomFields.SetAliasIdempotent | vendor/plugins/custom_fields/lib/custom_fields/field.rb:86-89 | deriving the alias twice is deriving it once |
| CustomFields.SetAliasOnlyAlias | vendor/plugins/custom_fields/lib/custom_fields/field.rb:88 | `set_alias` changes no attribute other than the alias |
| CustomFields.EmptyAliasKept | vendor/plugins/custom_fields/lib/custom_fields/field.rb:88 | an empty alias is kept even when a label is present, because `""` is not nil |
| CustomFields.SafeAliasFromSource | vendor/plugins/custom_fields/lib/custom_fields/field.rb:68-71 | with a present label or alias, `safe_alias` returns the normalised alias source |
| CustomFields.AliasFromLabelExample | vendor/plugins/custom_fields/lib/custom_fields/field.rb:88 | a field labelled "Publication Date" with no alias gets the alias "publication_date" |
| CustomFields.AliasOverrideExample | vendor/plugins/custom_fields/lib/custom_fields/field.rb:88 | an explicit alias "pubDate" wins over any label and becomes "pubdate" |
| Slug.NormalizeIsSlug | vendor/plugins/custom_fields/lib/custom_fields/field.rb:88 | the normaliser always yields lower-case word characters with single `_` separators and none at the ends |
| Slug.NormalizeFixesSlug | vendor/plugins/custom_fields/lib/custom_fields/field.rb:88 | a string of that shape is returned unchanged by the normaliser |
| Slug.NormalizeIdempotent | vendor/plugins/custom_fields/lib/custom_fields/field.rb:88 | normalising twice is normalising once |
| Slug.Squeeze | vendor/plugins/custom_fields/lib/custom_fields/field.rb:88 | squeezing leaves no two separators side by side, keeps the first character, keeps every non-separator character in order, only uses characters of its input, and leaves a string without double separators as it is |
| Slug.SqueezeDoubleSep | vendor/plugins/custom_fields/lib/custom_fields/field.rb:88 | removing one separator of a pair never changes the squeezed string, so a run of separators leaves exactly one `_` between its neighbours |
| Slug.NormalizeKeepsWordChars | vendor/plugins/custom_fields/lib/custom_fields/field.rb:88 | apart from separators, the normalised alias is exactly the letters, digits and dashes of its source, in order, downcased |
| Text.ParseNatToDecimal | vendor/plugins/custom_fields/lib/custom_fields/field.rb:83 | reading back the decimal rendering of a counter value gives the value |
| Text.IntToDecimalInjective | vendor/plugins/custom_fields/lib/custom_fields/field.rb:83 | distinct integers are interpolated as distinct strings |

## Left out

- Mongoid persistence, timestamps and the `field` declarations as storage (field.rb lines 4-5, 12-16): only the attribute values are kept, as record fields.
- The bodies of `Types::Default` and `Types::Category` (`apply_default_type`, `apply_category_type`) are not part of this model. Their calls are recorded in the schema log; their effect on the class is not modelled.
- `constantize` is runtime reflection. It is replaced by a finite registry from class name to class. Edge cases of the real lookup (empty names, `::`-qualified names) are not modelled.
- CustomFields.SetAlias: the normaliser is a simplified ASCII version of `parameterize('_')`, not ActiveSupport's own code. Non-ASCII letters are not transliterated and count as separators.
- `blank?` recognises ASCII whitespace only; Unicode space characters are not modelled.
- CustomFields.SetAlias: returns only the field. The parent's list keeps its own copy of the field with the old alias, because no modelled operation reads the alias from the list.
- A `nil` `_parent` is not modelled: in Ruby it makes `siblings` and `increment_counter!` raise `NoMethodError`, while here every field comes with a parent.
- The dynamic `send` on `"#{association_name}_counter"` and on the association: the parent is reduced to the one association the field belongs to.
- Concurrency of the counter's read-modify-write is not modelled: the code takes no lock, and this model has no interleavings.
- The Rails errors object (messages, `errors.add` details, clearing on re-validation) is reduced to a list of `Blank`/`Taken` errors in the order the validators run.
- The callbacks that invoke `set_unique_name!` and `set_alias` are declared outside this file and are not part of this model.
- The commented-out `apply_to_object` (field.rb lines 51-66) is dead code.
