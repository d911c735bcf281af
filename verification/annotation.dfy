/** Annotations of model elements (heart/xtt/annotation/Annotation.java): a kind
    and a map of string entries, read as the definition of an attribute or of a
    relation. */
module Annotations {
  import opened Errors

  const RelationAnnotation: string := "Relation"
  const AttributeAnnotation: string := "Attribute"
  const ValueKey: string := "value"
  const NameKey: string := "name"
  const SubjectKey: string := "subject"

  /** An annotation: its entries and its kind, which a builder that was never
      given one leaves null. */
  datatype Annotation = Annotation(entries: map<string, string>, kind: Option<string>)

  /** definesAttribute: the kind is Attribute or there is a value entry. A null
      kind is dereferenced. */
  function DefinesAttribute(a: Annotation): (r: Result<bool>)
    ensures r.Fail? <==> a.kind.None?
    ensures r.Fail? ==> r.error == NullPointer
    ensures r.Ok? ==> (r.value <==> a.kind == Some(AttributeAnnotation) || ValueKey in a.entries)
  {
    match a.kind
    case None => Fail(NullPointer)
    case Some(k) => Ok(k == AttributeAnnotation || ValueKey in a.entries)
  }

  /** definesRelation: the kind is Relation or there is a subject entry. A null
      kind is dereferenced. */
  function DefinesRelation(a: Annotation): (r: Result<bool>)
    ensures r.Fail? <==> a.kind.None?
    ensures r.Fail? ==> r.error == NullPointer
    ensures r.Ok? ==> (r.value <==> a.kind == Some(RelationAnnotation) || SubjectKey in a.entries)
  {
    match a.kind
    case None => Fail(NullPointer)
    case Some(k) => Ok(k == RelationAnnotation || SubjectKey in a.entries)
  }

  /** The entry under a key, null when there is none (Map.get). */
  function Get(entries: map<string, string>, key: string): (r: Option<string>)
    ensures r.Some? <==> key in entries
    ensures r.Some? ==> r.value == entries[key]
  {
    if key in entries then Some(entries[key]) else None
  }

  /** getAttributeValue: the value entry of an annotation that defines an
      attribute, null otherwise. Since a value entry alone makes an annotation
      define an attribute, once the kind is set this is just the value entry. */
  function AttributeValue(a: Annotation): (r: Result<Option<string>>)
    ensures r.Fail? <==> a.kind.None?
    ensures r.Ok? && r.value.Some? ==> DefinesAttribute(a) == Ok(true)
    ensures a.kind.Some? ==> r == Ok(Get(a.entries, ValueKey))
  {
    var defines :- DefinesAttribute(a);
    Ok(if defines then Get(a.entries, ValueKey) else None)
  }

  /** getRelationSubject: the subject entry of an annotation that defines a
      relation, null otherwise; once the kind is set, just the subject entry. */
  function RelationSubject(a: Annotation): (r: Result<Option<string>>)
    ensures r.Fail? <==> a.kind.None?
    ensures r.Ok? && r.value.Some? ==> DefinesRelation(a) == Ok(true)
    ensures a.kind.Some? ==> r == Ok(Get(a.entries, SubjectKey))
  {
    var defines :- DefinesRelation(a);
    Ok(if defines then Get(a.entries, SubjectKey) else None)
  }

  /** getName: the name entry if there is one, the kind otherwise. */
  function Name(a: Annotation): (r: Option<string>)
    ensures NameKey in a.entries ==> r == Some(a.entries[NameKey])
    ensures NameKey !in a.entries ==> r == a.kind
  {
    if NameKey in a.entries then Some(a.entries[NameKey]) else a.kind
  }

  /** Annotation.Builder: the entries added so far and the kind, if set. */
  datatype AnnotationBuilder = AnnotationBuilder(entries: map<string, string>, kind: Option<string>)

  /** A new builder: no entries and no kind. */
  function NewBuilder(): (b: AnnotationBuilder)
    ensures b.entries == map[] && b.kind.None?
  {
    AnnotationBuilder(map[], None)
  }

  /** addEntry: a later entry under the same key replaces the earlier one. */
  function AddEntry(b: AnnotationBuilder, key: string, value: string): (r: AnnotationBuilder)
    ensures key in r.entries && r.entries[key] == value && r.kind == b.kind
    ensures forall k :: k != key ==> Get(r.entries, k) == Get(b.entries, k)
  {
    b.(entries := b.entries[key := value])
  }

  /** setType. */
  function SetKind(b: AnnotationBuilder, kind: string): (r: AnnotationBuilder)
    ensures r.kind == Some(kind) && r.entries == b.entries
  {
    b.(kind := Some(kind))
  }

  /** build: the annotation takes the builder's entries and kind. */
  function Build(b: AnnotationBuilder): (a: Annotation)
    ensures forall k :: Get(a.entries, k) == Get(b.entries, k)
    ensures a.kind == b.kind
  {
    Annotation(b.entries, b.kind)
  }

  /** An annotation built with a kind and a list of entries reads back the last
      entry given under each key, is named by its name entry or else by its kind,
      and defines an attribute exactly when its kind is Attribute or a value was
      given. */
  lemma {:induction false} BuiltAnnotationReadsBack(kind: string, es: seq<(string, string)>)
    ensures var a := Build(AddAll(SetKind(NewBuilder(), kind), es));
      && (forall i :: 0 <= i < |es| && (forall j :: i < j < |es| ==> es[j].0 != es[i].0) ==> Get(a.entries, es[i].0) == Some(es[i].1))
      && (forall k :: (forall i :: 0 <= i < |es| ==> es[i].0 != k) ==> Get(a.entries, k).None?)
      && (Name(a) == if NameKey in a.entries then Some(a.entries[NameKey]) else Some(kind))
      && (DefinesAttribute(a) == Ok(kind == AttributeAnnotation || exists i :: 0 <= i < |es| && es[i].0 == ValueKey))
  {
    var b0 := SetKind(NewBuilder(), kind);
    AddAllEntries(b0, es);
    var a := Build(AddAll(b0, es));
    assert ValueKey in a.entries <==> exists i :: 0 <= i < |es| && es[i].0 == ValueKey;
  }

  /** Entries added in order. */
  function AddAll(b: AnnotationBuilder, es: seq<(string, string)>): (r: AnnotationBuilder)
    ensures r.kind == b.kind
    decreases |es|
  {
    if |es| == 0 then b else AddAll(AddEntry(b, es[0].0, es[0].1), es[1..])
  }

  /** Adding entries in order keeps the last value given under each key, and the
      builder's entries under the keys never given. */
  lemma {:induction false} AddAllEntries(b: AnnotationBuilder, es: seq<(string, string)>)
    ensures var r := AddAll(b, es);
      && (forall i :: 0 <= i < |es| && (forall j :: i < j < |es| ==> es[j].0 != es[i].0) ==> Get(r.entries, es[i].0) == Some(es[i].1))
      && (forall k :: (forall i :: 0 <= i < |es| ==> es[i].0 != k) ==> Get(r.entries, k) == Get(b.entries, k))
      && (forall k :: k in r.entries <==> k in b.entries || exists i :: 0 <= i < |es| && es[i].0 == k)
  {
    forall i | 0 <= i < |es| && (forall j :: i < j < |es| ==> es[j].0 != es[i].0)
      ensures Get(AddAll(b, es).entries, es[i].0) == Some(es[i].1)
    {
      AddAllLast(b, es, i);
    }
    forall k | (forall i :: 0 <= i < |es| ==> es[i].0 != k)
      ensures Get(AddAll(b, es).entries, k) == Get(b.entries, k)
    {
      AddAllUntouched(b, es, k);
    }
    forall k
      ensures k in AddAll(b, es).entries <==> k in b.entries || exists i :: 0 <= i < |es| && es[i].0 == k
    {
      AddAllKeys(b, es, k);
    }
  }

  /** The last entry given under a key is the one kept. */
  lemma {:induction false} AddAllLast(b: AnnotationBuilder, es: seq<(string, string)>, i: nat)
    requires i < |es| && forall j :: i < j < |es| ==> es[j].0 != es[i].0
    ensures Get(AddAll(b, es).entries, es[i].0) == Some(es[i].1)
    decreases |es|
  {
    var b1 := AddEntry(b, es[0].0, es[0].1);
    assert AddAll(b, es) == AddAll(b1, es[1..]);
    if i > 0 {
      assert es[1..][i - 1] == es[i];
      assert forall j :: i - 1 < j < |es| - 1 ==> es[1..][j] == es[j + 1];
      AddAllLast(b1, es[1..], i - 1);
    } else {
      assert forall j :: 0 <= j < |es| - 1 ==> es[1..][j] == es[j + 1];
      AddAllUntouched(b1, es[1..], es[0].0);
    }
  }

  /** A key never given keeps the builder's entry. */
  lemma {:induction false} AddAllUntouched(b: AnnotationBuilder, es: seq<(string, string)>, k: string)
    requires forall i :: 0 <= i < |es| ==> es[i].0 != k
    ensures Get(AddAll(b, es).entries, k) == Get(b.entries, k)
    decreases |es|
  {
    if |es| > 0 {
      var b1 := AddEntry(b, es[0].0, es[0].1);
      assert forall i :: 0 <= i < |es| - 1 ==> es[1..][i] == es[i + 1];
      AddAllUntouched(b1, es[1..], k);
    }
  }

  /** The keys afterwards are the builder's and those given. */
  lemma {:induction false} AddAllKeys(b: AnnotationBuilder, es: seq<(string, string)>, k: string)
    ensures k in AddAll(b, es).entries <==> k in b.entries || exists i :: 0 <= i < |es| && es[i].0 == k
    decreases |es|
  {
    if |es| > 0 {
      var b1 := AddEntry(b, es[0].0, es[0].1);
      AddAllKeys(b1, es[1..], k);
      if exists i :: 0 <= i < |es| && es[i].0 == k {
        var i :| 0 <= i < |es| && es[i].0 == k;
        if i > 0 {
          assert es[1..][i - 1].0 == k;
        }
      }
      if exists i :: 0 <= i < |es[1..]| && es[1..][i].0 == k {
        var i :| 0 <= i < |es[1..]| && es[1..][i].0 == k;
        assert es[i + 1].0 == k;
      }
    }
  }
}
