/** Merging `allOf` members into one set of fields (`openapi.rs`). */
module OpenApi {
  import opened Wrappers

  /** As much of a schema as the merge reads; a property's own schema stays closed,
      and `allOf` counts only where the schema has it. */
  datatype Schema = Schema(ref: Option<string>, properties: Option<seq<Property>>, hasAllOf: bool, allOf: seq<Schema>)

  datatype Property = Property(field: string, schema: string)

  /** The document's local references, and how a property becomes a name and a type. */
  datatype Document = Document(resolve: string -> Option<Schema>, toIdentifier: string -> string,
                               schemaType: string -> string)

  datatype Comment = Unresolved(reference: string) | Unmerged | Conflict(field: string)

  /** A field seen with a type. */
  datatype Occurrence = Occurrence(field: string, ty: string)

  // ---------- acyclic references ----------

  /** Every reference the merge can follow from here ranks below `n`. */
  ghost predicate RefsBelow(s: Schema, rank: string -> nat, n: nat)
    decreases s
  {
    if s.ref.Some? then rank(s.ref.value) < n
    else s.hasAllOf ==> forall item :: item in s.allOf ==> RefsBelow(item, rank, n)
  }

  ghost predicate Acyclic(doc: Document, rank: string -> nat) {
    forall r :: doc.resolve(r).Some? ==> RefsBelow(doc.resolve(r).value, rank, rank(r))
  }

  // ---------- the order-free definition ----------

  ghost function PropertyOccurrences(doc: Document, properties: Option<seq<Property>>): set<Occurrence> {
    if properties.None? then {}
    else set p | p in properties.value :: Occurrence(doc.toIdentifier(p.field), doc.schemaType(p.schema))
  }

  /** All property occurrences reached through members and references. */
  ghost function Occurrences(doc: Document, rank: string -> nat, s: Schema, n: nat): set<Occurrence>
    requires Acyclic(doc, rank) && RefsBelow(s, rank, n)
    decreases n, s
  {
    if s.ref.Some? then
      var target := doc.resolve(s.ref.value);
      if target.None? then {} else Occurrences(doc, rank, target.value, rank(s.ref.value))
    else
      PropertyOccurrences(doc, s.properties)
      + if !s.hasAllOf then {}
        else set item, o | item in s.allOf && o in Occurrences(doc, rank, item, n) :: o
  }

  ghost predicate Conflicting(seen: set<Occurrence>, field: string) {
    exists a, b :: a in seen && b in seen && a.field == b.field == field && a.ty != b.ty
  }

  /** The merge of a set of occurrences: one type stays, several become `Json`. */
  ghost predicate IsMerge(fields: map<string, string>, conflicts: set<string>, seen: set<Occurrence>) {
    && (forall f :: f in fields <==> exists o :: o in seen && o.field == f)
    && (forall f :: f in conflicts <==> Conflicting(seen, f))
    && (forall o :: o in seen ==> o.field in fields && fields[o.field] == if o.field in conflicts then "Json" else o.ty)
  }

  lemma MergeIsUnique(seen: set<Occurrence>, f1: map<string, string>, c1: set<string>, f2: map<string, string>,
                      c2: set<string>)
    requires IsMerge(f1, c1, seen) && IsMerge(f2, c2, seen)
    ensures f1 == f2 && c1 == c2
  {
    hide Conflicting;
    assert forall f :: f in c1 <==> f in c2;
    forall f | f in f1 ensures f in f2 && f1[f] == f2[f] {
      var o :| o in seen && o.field == f;
    }
    assert f1.Keys == f2.Keys;
  }

  /** Whether the walk reports a schema as merged: unresolved references and schemas without
      properties or members are not. */
  ghost predicate Merges(doc: Document, rank: string -> nat, s: Schema, n: nat)
    requires Acyclic(doc, rank) && RefsBelow(s, rank, n)
    decreases n, s
  {
    if s.ref.Some? then
      doc.resolve(s.ref.value).Some? && Merges(doc, rank, doc.resolve(s.ref.value).value, rank(s.ref.value))
    else s.properties.Some? || s.hasAllOf
  }

  /** The notes about unresolved references and members that did not merge. */
  ghost function Notes(doc: Document, rank: string -> nat, s: Schema, n: nat): multiset<Comment>
    requires Acyclic(doc, rank) && RefsBelow(s, rank, n)
    decreases n, s, |s.allOf| + 1
  {
    if s.ref.Some? then
      var target := doc.resolve(s.ref.value);
      if target.None? then multiset{Unresolved(s.ref.value)} else Notes(doc, rank, target.value, rank(s.ref.value))
    else if !s.hasAllOf then multiset{}
    else ItemNotes(doc, rank, s, s.allOf, n)
  }

  ghost function ItemNotes(doc: Document, rank: string -> nat, s: Schema, items: seq<Schema>, n: nat): multiset<Comment>
    requires Acyclic(doc, rank) && forall item :: item in items ==> RefsBelow(item, rank, n) && item < s
    decreases n, s, |items|
  {
    if |items| == 0 then multiset{}
    else
      var last := items[|items| - 1];
      ItemNotes(doc, rank, s, items[..|items| - 1], n) + Notes(doc, rank, last, n)
      + if Merges(doc, rank, last, n) then multiset{} else multiset{Unmerged}
  }

  // ---------- the accumulating merge ----------

  class TypeRender {
    var fields: map<string, string>
    var comments: seq<Comment>
    var conflictFields: set<string>
    ghost var seen: set<Occurrence>
    ghost var notes: multiset<Comment>

    constructor ()
      ensures Valid() && seen == {} && notes == multiset{}
    {
      fields, comments, conflictFields, seen, notes := map[], [], {}, {}, multiset{};
    }

    /** The fields are the merge of what was seen, and each conflict is on record once. */
    ghost predicate Valid()
      reads this
    {
      && IsMerge(fields, conflictFields, seen)
      && (forall c ::
            multiset(comments)[c] == (if c.Conflict? then (if c.field in conflictFields then 1 else 0) else notes[c]))
    }

    /** `merge_openapi_object_field`. */
    method MergeField(doc: Document, p: Property)
      requires Valid()
      modifies this
      ensures Valid() && notes == old(notes)
      ensures seen == old(seen) + {Occurrence(doc.toIdentifier(p.field), doc.schemaType(p.schema))}
    {
      hide IsMerge;
      var name := doc.toIdentifier(p.field);
      var ty := doc.schemaType(p.schema);
      MergeOne(fields, conflictFields, seen, name, ty);
      assert name in fields && fields[name] == ty ==> fields[name := ty] == fields;
      assert name in conflictFields ==> conflictFields + {name} == conflictFields;
      if name in fields {
        if fields[name] != ty {
          fields := fields[name := "Json"];
          if name !in conflictFields {
            conflictFields := conflictFields + {name};
            comments := comments + [Conflict(name)];
          }
        }
      } else {
        fields := fields[name := ty];
      }
      seen := seen + {Occurrence(name, ty)};
    }

    /** A note for the reader of the generated type. */
    method Note(comment: Comment)
      requires Valid() && !comment.Conflict?
      modifies this`comments, this`notes
      ensures Valid() && notes == old(notes) + multiset{comment}
    {
      hide IsMerge;
      comments := comments + [comment];
      notes := notes + multiset{comment};
    }

    /** `collect_openapi_object_fields`. */
    method Collect(doc: Document, s: Schema, ghost rank: string -> nat, ghost n: nat) returns (merged: bool)
      requires Valid() && Acyclic(doc, rank) && RefsBelow(s, rank, n)
      modifies this
      ensures Valid()
      ensures seen == old(seen) + Occurrences(doc, rank, s, n)
      ensures notes == old(notes) + Notes(doc, rank, s, n)
      ensures merged == Merges(doc, rank, s, n)
      decreases n, s
    {
      hide IsMerge;
      if s.ref.Some? {
        var target := doc.resolve(s.ref.value);
        if target.None? {
          Note(Unresolved(s.ref.value));
          return false;
        }
        merged := Collect(doc, target.value, rank, rank(s.ref.value));
        return;
      }
      merged := false;
      if s.properties.Some? {
        MergeProperties(doc, s.properties.value);
        merged := true;
      }
      if s.hasAllOf {
        CollectItems(doc, s, rank, n);
        merged := true;
      }
    }

    method MergeProperties(doc: Document, properties: seq<Property>)
      requires Valid()
      modifies this
      ensures Valid() && notes == old(notes)
      ensures seen == old(seen) + PropertyOccurrences(doc, Some(properties))
    {
      hide IsMerge;
      for i := 0 to |properties|
        invariant Valid() && notes == old(notes)
        invariant seen == old(seen) + PropertyOccurrences(doc, Some(properties[..i]))
      {
        assert properties[..i + 1] == properties[..i] + [properties[i]];
        MergeField(doc, properties[i]);
      }
      assert properties[..|properties|] == properties;
    }

    method CollectItems(doc: Document, s: Schema, ghost rank: string -> nat, ghost n: nat)
      requires Valid() && Acyclic(doc, rank) && s.ref.None? && s.hasAllOf && RefsBelow(s, rank, n)
      modifies this
      ensures Valid()
      ensures seen == old(seen) + ItemOccurrences(doc, rank, s.allOf, n)
      ensures notes == old(notes) + ItemNotes(doc, rank, s, s.allOf, n)
      decreases n, s, 0
    {
      hide Valid, Acyclic, Occurrences, ItemOccurrences, Merges, Notes, ItemNotes;
      var items := s.allOf;
      NoItems(doc, rank, s, n);
      for i := 0 to |items|
        invariant Valid()
        invariant seen == old(seen) + ItemOccurrences(doc, rank, items[..i], n)
        invariant notes == old(notes) + ItemNotes(doc, rank, s, items[..i], n)
      {
        var merged := Collect(doc, items[i], rank, n);
        if !merged {
          Note(Unmerged);
        }
        MoreItems(doc, rank, s, i, n);
      }
      assert items[..|items|] == items;
    }
  }

  ghost function ItemOccurrences(doc: Document, rank: string -> nat, items: seq<Schema>, n: nat): set<Occurrence>
    requires Acyclic(doc, rank) && forall item :: item in items ==> RefsBelow(item, rank, n)
  {
    set item, o | item in items && o in Occurrences(doc, rank, item, n) :: o
  }

  lemma NoItems(doc: Document, rank: string -> nat, s: Schema, n: nat)
    requires Acyclic(doc, rank)
    ensures ItemOccurrences(doc, rank, [], n) == {} && ItemNotes(doc, rank, s, [], n) == multiset{}
  {
  }

  lemma MoreItems(doc: Document, rank: string -> nat, s: Schema, i: nat, n: nat)
    requires Acyclic(doc, rank) && RefsBelow(s, rank, n) && s.ref.None? && s.hasAllOf && i < |s.allOf|
    ensures ItemOccurrences(doc, rank, s.allOf[..i + 1], n) ==
            ItemOccurrences(doc, rank, s.allOf[..i], n) + Occurrences(doc, rank, s.allOf[i], n)
    ensures ItemNotes(doc, rank, s, s.allOf[..i + 1], n) ==
            ItemNotes(doc, rank, s, s.allOf[..i], n) + Notes(doc, rank, s.allOf[i], n)
            + if Merges(doc, rank, s.allOf[i], n) then multiset{} else multiset{Unmerged}
  {
    hide Occurrences, Notes, Merges;
    assert s.allOf[..i + 1] == s.allOf[..i] + [s.allOf[i]];
    assert s.allOf[..i + 1][..i] == s.allOf[..i];
  }

  /** One more occurrence clashes exactly where a field already has another type. */
  lemma MoreConflicts(fields: map<string, string>, conflicts: set<string>, seen: set<Occurrence>, o: Occurrence,
                      f: string)
    requires IsMerge(fields, conflicts, seen)
    ensures Conflicting(seen + {o}, f) <==>
            f in conflicts || (f == o.field && f in fields && fields[f] != o.ty)
  {
    var more := seen + {o};
    if f in conflicts {
      var a, b :| a in seen && b in seen && a.field == b.field == f && a.ty != b.ty;
      assert a in more && b in more;
    } else if f == o.field && f in fields && fields[f] != o.ty {
      var a :| a in seen && a.field == f;
      assert a in more && o in more && a.ty != o.ty;
    }
  }

  lemma ConflictsAreFields(fields: map<string, string>, conflicts: set<string>, seen: set<Occurrence>, f: string)
    requires IsMerge(fields, conflicts, seen) && f in conflicts
    ensures f in fields && fields[f] == "Json"
  {
    assert Conflicting(seen, f);
    var a, b :| a in seen && b in seen && a.field == b.field == f && a.ty != b.ty;
  }

  lemma MergeOne(fields: map<string, string>, conflicts: set<string>, seen: set<Occurrence>, name: string, ty: string)
    requires IsMerge(fields, conflicts, seen)
    ensures var clash := name in fields && fields[name] != ty;
            IsMerge(fields[name := if clash then "Json" else ty],
                    if clash then conflicts + {name} else conflicts, seen + {Occurrence(name, ty)})
  {
    hide Conflicting;
    if name in conflicts { ConflictsAreFields(fields, conflicts, seen, name); }
    var o := Occurrence(name, ty);
    var clash := name in fields && fields[name] != ty;
    var merged := fields[name := if clash then "Json" else ty];
    forall f ensures f in (if clash then conflicts + {name} else conflicts) <==> Conflicting(seen + {o}, f) {
      MoreConflicts(fields, conflicts, seen, o, f);
    }
    forall f ensures f in merged <==> exists x :: x in seen + {o} && x.field == f {
      if f == name { assert o in seen + {o}; }
      else if f in fields {
        var x :| x in seen && x.field == f;
        assert x in seen + {o};
      }
    }
  }

  // ---------- the whole rendering ----------

  /** `render_openapi_type_fields`: the fields, conflicts and notes of a schema are those of
      its occurrences, in whatever order they were met. */
  method RenderTypeFields(doc: Document, s: Schema, ghost rank: string -> nat, ghost n: nat)
    returns (fields: map<string, string>, conflicts: set<string>, comments: seq<Comment>)
    requires Acyclic(doc, rank) && RefsBelow(s, rank, n)
    ensures IsMerge(fields, conflicts, Occurrences(doc, rank, s, n))
    ensures forall c :: multiset(comments)[c] ==
              (if c.Conflict? then (if c.field in conflicts then 1 else 0) else Notes(doc, rank, s, n)[c])
  {
    hide IsMerge, Occurrences, Notes;
    var rendered := new TypeRender();
    var _ := rendered.Collect(doc, s, rank, n);
    assert {} + Occurrences(doc, rank, s, n) == Occurrences(doc, rank, s, n);
    fields, conflicts, comments := rendered.fields, rendered.conflictFields, rendered.comments;
  }

  // ---------- the order of members ----------

  ghost predicate SameProperties(p: Option<seq<Property>>, q: Option<seq<Property>>) {
    if p.None? || q.None? then p == q else multiset(p.value) == multiset(q.value)
  }

  /** The same schema with properties and members in another order, at every depth. */
  ghost predicate SameUpToOrder(s: Schema, t: Schema)
    decreases s
  {
    if s.ref.Some? then s.ref == t.ref
    else
      && t.ref.None? && SameProperties(s.properties, t.properties) && s.hasAllOf == t.hasAllOf
      && (s.hasAllOf ==> exists items :: multiset(items) == multiset(t.allOf) && Alike(s, items))
  }

  /** The members of `s` one by one against `items`. */
  ghost predicate Alike(s: Schema, items: seq<Schema>)
    decreases s, 0
  {
    |items| == |s.allOf| && forall i :: 0 <= i < |items| ==> SameUpToOrder(s.allOf[i], items[i])
  }

  lemma SamePropertyOccurrences(doc: Document, p: Option<seq<Property>>, q: Option<seq<Property>>)
    requires SameProperties(p, q)
    ensures PropertyOccurrences(doc, p) == PropertyOccurrences(doc, q)
  {
    if p.Some? && q.Some? { SameElements(p.value, q.value); }
  }

  lemma SameElements<T>(s: seq<T>, t: seq<T>)
    requires multiset(s) == multiset(t)
    ensures |s| == |t| && forall x :: x in s <==> x in t
  {
    assert |s| == |multiset(s)| == |t|;
    forall x ensures x in s <==> x in t {
      assert x in multiset(s) <==> x in multiset(t);
    }
  }

  /** Reordering members and properties at any depth changes no occurrence and no note, so
      neither fields nor conflicts nor comments. */
  lemma {:induction false} MembersInAnyOrder(doc: Document, rank: string -> nat, s: Schema, t: Schema, n: nat)
    requires Acyclic(doc, rank) && RefsBelow(s, rank, n) && SameUpToOrder(s, t)
    ensures RefsBelow(t, rank, n)
    ensures Occurrences(doc, rank, s, n) == Occurrences(doc, rank, t, n)
    ensures Merges(doc, rank, s, n) == Merges(doc, rank, t, n)
    ensures Notes(doc, rank, s, n) == Notes(doc, rank, t, n)
    decreases s
  {
    hide ItemNotes, Acyclic, PropertyOccurrences, SameProperties;
    if s.ref.None? {
      SamePropertyOccurrences(doc, s.properties, t.properties);
      assert s.properties.Some? == t.properties.Some? by { SomeAlike(s.properties, t.properties); }
      if s.hasAllOf {
        var items :| multiset(items) == multiset(t.allOf) && Alike(s, items);
        SameElements(items, t.allOf);
        forall i | 0 <= i < |items|
          ensures MemberAgrees(doc, rank, s.allOf[i], items[i], n)
        {
          MembersInAnyOrder(doc, rank, s.allOf[i], items[i], n);
        }
        SameMembers(doc, rank, s, t, items, n);
      }
    }
  }

  lemma SomeAlike(p: Option<seq<Property>>, q: Option<seq<Property>>)
    requires SameProperties(p, q)
    ensures p.Some? == q.Some?
  {
  }

  ghost predicate MemberAgrees(doc: Document, rank: string -> nat, x: Schema, y: Schema, n: nat)
    requires Acyclic(doc, rank) && RefsBelow(x, rank, n)
  {
    && RefsBelow(y, rank, n)
    && Occurrences(doc, rank, x, n) == Occurrences(doc, rank, y, n)
    && ItemNote(doc, rank, x, n) == ItemNote(doc, rank, y, n)
  }

  /** What one member adds to the notes. */
  ghost function ItemNote(doc: Document, rank: string -> nat, item: Schema, n: nat): multiset<Comment>
    requires Acyclic(doc, rank) && RefsBelow(item, rank, n)
  {
    Notes(doc, rank, item, n) + if Merges(doc, rank, item, n) then multiset{} else multiset{Unmerged}
  }

  lemma SameMembers(doc: Document, rank: string -> nat, s: Schema, t: Schema, items: seq<Schema>, n: nat)
    requires Acyclic(doc, rank) && RefsBelow(s, rank, n) && s.ref.None? && t.ref.None? && s.hasAllOf && t.hasAllOf
    requires |items| == |s.allOf| && multiset(items) == multiset(t.allOf)
    requires forall i :: 0 <= i < |items| ==> MemberAgrees(doc, rank, s.allOf[i], items[i], n)
    ensures RefsBelow(t, rank, n)
    ensures ItemOccurrences(doc, rank, s.allOf, n) == ItemOccurrences(doc, rank, t.allOf, n)
    ensures ItemNotes(doc, rank, s, s.allOf, n) == ItemNotes(doc, rank, t, t.allOf, n)
  {
    hide Occurrences, Notes, Merges, ItemNotes, ItemNote, Acyclic;
    SameElements(items, t.allOf);
    forall item | item in items ensures RefsBelow(item, rank, n) {
      var i :| 0 <= i < |items| && items[i] == item;
      assert MemberAgrees(doc, rank, s.allOf[i], items[i], n);
    }
    NotesOneByOne(doc, rank, s, s.allOf, t, items, n);
    NotesPermuted(doc, rank, t, items, t.allOf, n);
  }

  ghost predicate AreItems(s: Schema, items: seq<Schema>, rank: string -> nat, n: nat) {
    forall item :: item in items ==> item < s && RefsBelow(item, rank, n)
  }

  lemma FewerItems(s: Schema, items: seq<Schema>, fewer: seq<Schema>, rank: string -> nat, n: nat)
    requires AreItems(s, items, rank, n) && forall item :: item in fewer ==> item in items
    ensures AreItems(s, fewer, rank, n)
  {
  }

  lemma {:induction false} NotesOneByOne(doc: Document, rank: string -> nat, s: Schema, xs: seq<Schema>,
                                         t: Schema, ys: seq<Schema>, n: nat)
    requires Acyclic(doc, rank) && |xs| == |ys|
    requires AreItems(s, xs, rank, n)
    requires AreItems(t, ys, rank, n)
    requires forall i :: 0 <= i < |xs| ==> MemberAgrees(doc, rank, xs[i], ys[i], n)
    ensures ItemNotes(doc, rank, s, xs, n) == ItemNotes(doc, rank, t, ys, n)
    decreases |xs|
  {
    hide Occurrences, Notes, Merges, Acyclic, RefsBelow, ItemNotes, AreItems, ItemNote;
    if xs != [] {
      var last := |xs| - 1;
      LastNote(doc, rank, s, xs, n);
      assert MemberAgrees(doc, rank, xs[last], ys[last], n);
      LastNote(doc, rank, t, ys, n);
      NotesOneByOne(doc, rank, s, xs[..last], t, ys[..last], n);
    } else {
      NoNotes(doc, rank, s, t, n);
    }
  }

  lemma {:induction false} NotesPermuted(doc: Document, rank: string -> nat, s: Schema, xs: seq<Schema>,
                                         ys: seq<Schema>, n: nat)
    requires Acyclic(doc, rank) && multiset(xs) == multiset(ys)
    requires AreItems(s, xs, rank, n)
    requires AreItems(s, ys, rank, n)
    ensures ItemNotes(doc, rank, s, xs, n) == ItemNotes(doc, rank, s, ys, n)
    decreases |xs|
  {
    hide Occurrences, Notes, Merges, Acyclic, RefsBelow, ItemNotes, AreItems, ItemNote;
    SameElements(xs, ys);
    if xs != [] {
      var k := TakenOut(xs, ys);
      LastNote(doc, rank, s, xs, n);
      NoteTakenOut(doc, rank, s, ys, k, n);
      NotesPermuted(doc, rank, s, xs[..|xs| - 1], ys[..k] + ys[k + 1..], n);
    }
  }

  lemma TakenOut<T>(xs: seq<T>, ys: seq<T>) returns (k: nat)
    requires xs != [] && multiset(xs) == multiset(ys)
    ensures k < |ys| && ys[k] == xs[|xs| - 1] && multiset(ys[..k] + ys[k + 1..]) == multiset(xs[..|xs| - 1])
  {
    var last := xs[|xs| - 1];
    SameElements(xs, ys);
    assert last in xs;
    k :| 0 <= k < |ys| && ys[k] == last;
    assert xs == xs[..|xs| - 1] + [last] && ys == ys[..k] + [last] + ys[k + 1..];
    assert multiset(ys[..k] + ys[k + 1..]) == multiset(ys) - multiset{last};
  }

  lemma NoNotes(doc: Document, rank: string -> nat, s: Schema, t: Schema, n: nat)
    requires Acyclic(doc, rank)
    ensures ItemNotes(doc, rank, s, [], n) == ItemNotes(doc, rank, t, [], n) == multiset{}
  {
  }

  lemma LastNote(doc: Document, rank: string -> nat, s: Schema, xs: seq<Schema>, n: nat)
    requires Acyclic(doc, rank) && xs != []
    requires AreItems(s, xs, rank, n)
    ensures AreItems(s, xs[..|xs| - 1], rank, n) && RefsBelow(xs[|xs| - 1], rank, n)
    ensures ItemNotes(doc, rank, s, xs, n) ==
            ItemNotes(doc, rank, s, xs[..|xs| - 1], n) + ItemNote(doc, rank, xs[|xs| - 1], n)
  {
    hide Notes, Merges, Acyclic, RefsBelow;
  }

  lemma {:induction false} NoteTakenOut(doc: Document, rank: string -> nat, s: Schema, ys: seq<Schema>, k: nat, n: nat)
    requires Acyclic(doc, rank) && k < |ys|
    requires AreItems(s, ys, rank, n)
    ensures AreItems(s, ys[..k] + ys[k + 1..], rank, n) && RefsBelow(ys[k], rank, n)
    ensures ItemNotes(doc, rank, s, ys, n) ==
            ItemNotes(doc, rank, s, ys[..k] + ys[k + 1..], n) + ItemNote(doc, rank, ys[k], n)
    decreases |ys|
  {
    hide Notes, Merges, Acyclic, RefsBelow, ItemNotes, ItemNote, AreItems;
    var front := |ys| - 1;
    FewerItems(s, ys, ys[..k] + ys[k + 1..], rank, n);
    LastNote(doc, rank, s, ys, n);
    if k == front {
      assert ys[..k] + ys[k + 1..] == ys[..k];
    } else {
      var rest := ys[..k] + ys[k + 1..];
      assert rest[|rest| - 1] == ys[front] && rest[..|rest| - 1] == ys[..front][..k] + ys[..front][k + 1..];
      NoteTakenOut(doc, rank, s, ys[..front], k, n);
      LastNote(doc, rank, s, rest, n);
    }
  }
}
