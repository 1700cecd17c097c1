/**
 * Field descriptors and type metadata (`Field`, `Metadata`): what the
 * package derives by reflection for a type.  A field carries the metadata
 * of its own type and metadata carries its fields, so the two are defined
 * together; both are immutable once built.
 *
 * `MetadataOf` and `FieldOf` specify the derivation; the methods
 * `NewTypeMetadata`, `Metadata.GetFields` and `NewField` follow Go's
 * `NewTypeMetadata`, `getFields` and `NewField`, proved to compute them.
 */
module Descriptors {
  import opened Wrappers
  import opened Reflect
  import Tags
  import TagParser

  /**
   * `Metadata`: the type with one pointer level removed, its kind, and its
   * fields in declaration order (none for a non-struct or an empty struct).
   * The accessors `Type`, `Kind` and `Fields` are the destructors.
   */
  datatype Metadata = Metadata(typ: Type, kind: Kind, fields: seq<Field>) {

    /** `IsStruct`: the type, with one more pointer level removed, is a struct. */
    predicate IsStruct() {
      TagParser.Indirect(typ).Kind() == Struct
    }

    /**
     * `getFields`: fills in one field descriptor per declared field of the
     * struct type, in order; leaves the fields empty for a struct without
     * fields.
     */
    method GetFields() returns (md: Metadata)
      requires typ.StructOf? && fields == []
      requires forall i | 0 <= i < |typ.fields| :: Derivable(typ.fields[i].typ)
      ensures md == this.(fields := FieldsOf(typ))
      decreases typ, 1
    {
      var nf := |typ.fields|;
      if nf == 0 {
        return this;
      }
      var fs: seq<Field> := [];
      for i := 0 to nf
        invariant |fs| == i
        invariant forall j | 0 <= j < i :: fs[j] == FieldOf(FieldAt(typ, j))
      {
        var fld := NewField(FieldAt(typ, i));
        fs := fs + [fld];
      }
      md := this.(fields := fs);
    }

    /** The names of the fields, in order. */
    function Names(): (ns: seq<string>)
      ensures |ns| == |fields|
      ensures forall i | 0 <= i < |fields| :: ns[i] == fields[i].Name()
    {
      seq(|fields|, i requires 0 <= i < |fields| => fields[i].Name())
    }

    /** The first field with that name, unexported fields included. */
    function FieldNamed(name: string): (r: Option<Field>)
      ensures r.None? <==> name !in Names()
      ensures r.Some? ==> exists i | 0 <= i < |fields| ::
        && fields[i] == r.value && fields[i].Name() == name && name !in Names()[..i]
    {
      match FirstIndex(Names(), name)
      case None => None
      case Some(i) => Some(fields[i])
    }

    /** `FieldByName`: the search loop, which computes `FieldNamed`. */
    method FieldByName(name: string) returns (r: Option<Field>)
      ensures r == FieldNamed(name)
    {
      for i := 0 to |fields|
        invariant name !in Names()[..i]
      {
        if fields[i].Name() == name {
          FirstIndexAt(Names(), name, i);
          return Some(fields[i]);
        }
        assert Names()[..i + 1] == Names()[..i] + [fields[i].Name()];
      }
      assert Names()[..|fields|] == Names();
      return None;
    }

    /** `FieldByIndex`: the field at a position, absent past the end. */
    function FieldByIndex(idx: nat): (r: Option<Field>)
      ensures r.Some? <==> idx < |fields|
      ensures r.Some? ==> r.value == fields[idx]
    {
      if idx >= |fields| then None else Some(fields[idx])
    }
  }

  /**
   * `Field`: a struct field with its declaration, type, kind, flags, index
   * path, the metadata of its own type and its parsed tags.  The accessors
   * `StructField`, `Type`, `Kind`, `Index`, `TypeMetadata` and `IsAnonymous`
   * are the destructors.
   */
  datatype Field = Field(metadata: Metadata, sf: StructField, typ: Type, kind: Kind,
                         anonymous: bool, exported: bool, sliceOfPtr: bool, sliceOrArr: bool,
                         index: seq<int>, tags: seq<Tags.Tag>) {

    /** The name of the struct field. */
    function Name(): string {
      sf.name
    }

    /**
     * `Tag(key)`: the first tag with that key, or, when there is none, the
     * zero tag of the field.
     */
    method Tag(key: string) returns (tag: Tags.Tag)
      ensures (forall i | 0 <= i < |tags| :: tags[i].key != key) ==> tag == Tags.Missing(Name())
      ensures (exists i | 0 <= i < |tags| :: tags[i].key == key) ==> exists i | 0 <= i < |tags| ::
        && tag == tags[i] && tags[i].key == key
        && forall j | 0 <= j < i :: tags[j].key != key
    {
      for i := 0 to |tags|
        invariant forall j | 0 <= j < i :: tags[j].key != key
      {
        if tags[i].key == key {
          return tags[i];
        }
      }
      return Tags.Missing(sf.name);
    }

    /** A field that can be addressed by name: neither an interface nor embedded. */
    predicate IsValid() {
      !IsInterface() && !anonymous
    }

    predicate IsExported() {
      sf.exported
    }

    predicate IsSliceOfPtr() {
      sliceOfPtr
    }

    /** The pointee type for a pointer field, the field type otherwise. */
    function IndirectType(): Type
      requires kind == Ptr ==> typ.Pointer?
    {
      if kind == Ptr then typ.elem else typ
    }

    predicate IsSlice() {
      kind == Slice
    }

    predicate IsArray() {
      kind == Array
    }

    predicate IsSliceOrArray() {
      sliceOrArr
    }

    predicate IsMap() {
      kind == Map
    }

    predicate IsInterface() {
      kind == Interface
    }
  }

  /** The position of the first occurrence of `name` in `names`, absent when there is none. */
  function FirstIndex(names: seq<string>, name: string): (r: Option<nat>)
    ensures r.None? <==> name !in names
    ensures r.Some? ==> r.value < |names| && names[r.value] == name && name !in names[..r.value]
  {
    if names == [] then None
    else if names[0] == name then Some(0)
    else
      match FirstIndex(names[1..], name)
      case None => None
      case Some(k) =>
        assert names[..k + 1] == [names[0]] + names[1..][..k];
        Some(k + 1)
  }

  /** A position holding `name` with no `name` before it is the first index. */
  lemma FirstIndexAt(names: seq<string>, name: string, i: nat)
    requires i < |names| && names[i] == name && name !in names[..i]
    ensures FirstIndex(names, name) == Some(i)
  {
    assert names[i] in names;
    assert forall j | 0 <= j < i :: names[..i][j] == names[j];
    assert forall m | i < m <= |names| :: names[..m][i] == name;
  }

  /**
   * Whether `NewTypeMetadata` returns for `t` rather than panics: after one
   * pointer level is removed, `IsStruct` removes a second one, so a pointer
   * to a struct there (`**S`) reaches `NumField` on a pointer type; and the
   * metadata of every field type is derived eagerly.
   */
  predicate Derivable(t: Type)
    decreases t
  {
    var u := TagParser.Indirect(t);
    && !(u.Pointer? && u.elem.StructOf?)
    && (u.StructOf? ==> forall i | 0 <= i < |u.fields| :: Derivable(u.fields[i].typ))
  }

  /** The tags of a field: those `ParseTags` gives, none when its tag string is malformed. */
  function TagsOf(sf: StructField): seq<Tags.Tag> {
    match TagParser.Parse(sf.name, sf.tag)
    case Success(ts) => ts
    case Failure(_) => []
  }

  /** The metadata `NewTypeMetadata` derives for a type. */
  function MetadataOf(t: Type): Metadata
    requires Derivable(t)
    decreases t, 2
  {
    var u := TagParser.Indirect(t);
    var md := Metadata(u, u.Kind(), []);
    if md.IsStruct() then md.(fields := FieldsOf(u)) else md
  }

  /** The field descriptors of a struct type's declared fields, in order. */
  function FieldsOf(u: Type): seq<Field>
    requires u.StructOf?
    requires forall i | 0 <= i < |u.fields| :: Derivable(u.fields[i].typ)
    decreases u, 1
  {
    seq(|u.fields|, i requires 0 <= i < |u.fields| => FieldOf(FieldAt(u, i)))
  }

  /** The descriptor `NewField` builds for a struct field. */
  function FieldOf(sf: StructField): Field
    requires Derivable(sf.typ)
    decreases sf.typ, 3
  {
    var kind := sf.typ.Kind();
    var sliceOrArr := kind == Slice || kind == Array;
    Field(MetadataOf(sf.typ), sf, sf.typ, kind, sf.anonymous, sf.exported,
          sliceOrArr && sf.typ.elem.Kind() == Ptr, sliceOrArr, sf.index, TagsOf(sf))
  }

  /** `NewTypeMetadata`: metadata for the type with one pointer level removed. */
  method NewTypeMetadata(t: Type) returns (md: Metadata)
    requires Derivable(t)
    ensures md == MetadataOf(t)
    decreases t, 2
  {
    var typ := TagParser.Indirect(t);
    md := Metadata(typ, typ.Kind(), []);
    if md.IsStruct() {
      md := md.GetFields();
    }
  }

  /** `NewMetadata`: metadata for the dynamic type of a non-nil interface value. */
  method NewMetadata(v: Any) returns (md: Metadata)
    requires v.Boxed? && Derivable(v.typ)
    ensures md == MetadataOf(v.typ)
  {
    md := NewTypeMetadata(v.typ);
  }

  /**
   * `NewField`: classifies the field by its kind, derives the metadata of
   * its type, and parses its tag string, dropping a syntax error.
   */
  method NewField(sf: StructField) returns (fld: Field)
    requires Derivable(sf.typ)
    ensures fld == FieldOf(sf)
    decreases sf.typ, 3
  {
    var kind := sf.typ.Kind();
    var md := NewTypeMetadata(sf.typ);
    fld := Field(md, sf, sf.typ, kind, sf.anonymous, sf.exported, false,
                 kind == Slice || kind == Array, sf.index, []);
    var tags, _ := TagParser.ParseTags(sf.name, sf.tag);
    fld := fld.(tags := tags);
    if fld.sliceOrArr && sf.typ.elem.Kind() == Ptr {
      fld := fld.(sliceOfPtr := true);
    }
  }

  /**
   * The metadata of a type: the type with one pointer level removed and its
   * kind; no fields unless that type is a struct; for a struct, one
   * descriptor per declared field, in declaration order, the i-th with
   * index path `[i]` and the declared name and type.
   */
  lemma MetadataOfShape(t: Type)
    requires Derivable(t)
    ensures var u := TagParser.Indirect(t);
      && MetadataOf(t).typ == u
      && MetadataOf(t).kind == u.Kind()
      && (MetadataOf(t).IsStruct() <==> u.StructOf?)
      && (!u.StructOf? ==> MetadataOf(t).fields == [])
      && (u.StructOf? ==> |MetadataOf(t).fields| == |u.fields|)
    ensures var u := TagParser.Indirect(t);
      u.StructOf? ==> forall i | 0 <= i < |u.fields| ::
        && MetadataOf(t).fields[i] == FieldOf(FieldAt(u, i))
        && MetadataOf(t).fields[i].index == [i]
        && MetadataOf(t).fields[i].Name() == u.fields[i].name
        && MetadataOf(t).fields[i].typ == u.fields[i].typ
  {
    var u := TagParser.Indirect(t);
    if !u.StructOf? {
      assert !(u.Pointer? && u.elem.StructOf?);
    }
  }

  /** A struct type with no fields has no field descriptors. */
  lemma EmptyStructHasNoFields(name: string)
    ensures Derivable(StructOf(name, []))
    ensures MetadataOf(StructOf(name, [])).fields == []
  {
  }

  /** `T` and `*T` have the same metadata, for a type `T` that is not a pointer. */
  lemma PointerNormalised(t: Type)
    requires !t.Pointer? && Derivable(Pointer(t))
    ensures Derivable(t)
    ensures MetadataOf(Pointer(t)) == MetadataOf(t)
  {
  }

  /** A pointer to a pointer to a struct is outside what `NewTypeMetadata` handles. */
  lemma PointerToStructPointer(s: Type)
    requires s.StructOf?
    ensures !Derivable(Pointer(Pointer(s)))
  {
  }

  /**
   * The descriptor of a struct field: its name and index path are the
   * declared ones, it carries its type's metadata, and its flags follow its
   * kind: slice-or-array exactly for slices and arrays, slice of pointers
   * exactly for those whose elements are pointers, valid exactly when
   * neither an interface nor embedded; its indirect type is the pointee of
   * a pointer type and the type itself otherwise.
   */
  lemma FieldOfShape(sf: StructField)
    requires Derivable(sf.typ)
    ensures FieldOf(sf).Name() == sf.name
    ensures FieldOf(sf).index == sf.index
    ensures FieldOf(sf).metadata == MetadataOf(sf.typ)
    ensures FieldOf(sf).IsExported() <==> sf.exported
    ensures FieldOf(sf).IsSliceOrArray() <==> sf.typ.SliceOf? || sf.typ.ArrayOf?
    ensures FieldOf(sf).IsSliceOrArray() <==> FieldOf(sf).IsSlice() || FieldOf(sf).IsArray()
    ensures FieldOf(sf).IsSliceOfPtr() <==> (sf.typ.SliceOf? || sf.typ.ArrayOf?) && sf.typ.elem.Pointer?
    ensures FieldOf(sf).IsValid() <==> sf.typ.Kind() != Interface && !sf.anonymous
    ensures FieldOf(sf).IndirectType() == TagParser.Indirect(sf.typ)
  {
  }

  /**
   * The tags of a field are those its tag string parses to: well formed,
   * for the field, with distinct keys; a malformed tag string leaves none,
   * and construction goes on.
   */
  lemma FieldTags(sf: StructField)
    requires Derivable(sf.typ)
    ensures TagParser.Parse(sf.name, sf.tag).Failure? ==> FieldOf(sf).tags == []
    ensures TagParser.Parse(sf.name, sf.tag).Success? ==> FieldOf(sf).tags == TagParser.Parse(sf.name, sf.tag).value
    ensures forall i | 0 <= i < |FieldOf(sf).tags| :: TagParser.WellFormed(sf.name, FieldOf(sf).tags[i])
    ensures TagParser.Distinct(TagParser.Keys(FieldOf(sf).tags))
  {
    if TagParser.Parse(sf.name, sf.tag).Success? {
      TagParser.ParseResult(sf.name, sf.tag);
    }
  }
}
