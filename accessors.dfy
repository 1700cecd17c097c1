/**
 * Descriptors bound to live values: `FieldValue` pairs a field descriptor
 * with the value of that field, `StructValue` pairs struct metadata with a
 * struct held directly or through a pointer.  Reads go through the access
 * checks of the descriptor; `NewIfNil` allocates nil pointers, maps and
 * slices in place.
 */
module Accessors {
  import opened Wrappers
  import opened Reflect
  import opened Descriptors
  import opened MetadataCache
  import TagParser

  /** The errors `FieldValue.Get` reports. */
  datatype AccessError = ErrInvField | ErrUnexportedField(name: string) {
    /** The error text; the unexported error wraps the sentinel and names the field. */
    function Message(): (m: string)
      ensures ErrInvField? ==> m == "invalid field"
      ensures ErrUnexportedField? ==> m == "unexported field: " + name
    {
      match this
      case ErrInvField => "invalid field"
      case ErrUnexportedField(n) => "unexported field: " + n
    }
  }

  /** The declared field names of struct type `t`, in order. */
  function DeclNames(t: Type): (ns: seq<string>)
    requires t.StructOf?
    ensures |ns| == |t.fields|
    ensures forall i | 0 <= i < |t.fields| :: ns[i] == t.fields[i].name
  {
    seq(|t.fields|, i requires 0 <= i < |t.fields| => t.fields[i].name)
  }

  /**
   * The first declared field of struct type `t` called `name`, as
   * `reflect.Value.FieldByName` finds it among the top-level fields.
   */
  function DeclIndex(t: Type, name: string): (r: Option<nat>)
    requires t.StructOf?
    ensures r.None? <==> forall i | 0 <= i < |t.fields| :: t.fields[i].name != name
    ensures r.Some? ==> r.value < |t.fields| && t.fields[r.value].name == name
    ensures r.Some? ==> forall j | 0 <= j < r.value :: t.fields[j].name != name
  {
    var r := FirstIndex(DeclNames(t), name);
    assert r.Some? ==> forall j | 0 <= j < r.value :: DeclNames(t)[..r.value][j] == t.fields[j].name;
    r
  }

  /**
   * `FieldValue`: a field descriptor and the value of that field in some
   * struct.  `NewFieldValue` is the constructor, `Field` and `Value` the
   * destructors.
   */
  datatype FieldValue = FieldValue(field: Field, value: Handle) {

    /** The value is live, has the field's type, and the descriptor's kind is that type's. */
    predicate Bound()
      reads value.Frame()
    {
      value.Valid() && field.kind == field.typ.Kind() && Fits(value.Get(), field.typ)
    }

    /** The value is a nil pointer, map or slice, which `NewIfNil` replaces. */
    predicate NeedsInit()
      reads value.Frame()
      requires value.Valid()
    {
      (field.kind == Ptr || field.kind == Map || field.kind == Slice) && IsNil(value.Get())
    }

    /**
     * `NewIfNil`: a nil pointer field is pointed at a fresh zero value of
     * its element type, a nil map field gets an empty map and a nil slice
     * field an empty slice; any other value is left alone.  Returns the
     * receiver.
     */
    method NewIfNil() returns (r: FieldValue)
      requires Bound()
      requires NeedsInit() ==> value.At?
      modifies value.Frame()
      ensures r == this
      ensures Bound() && !NeedsInit()
      ensures !old(NeedsInit()) ==> unchanged(value.Frame())
      ensures old(NeedsInit()) ==> value.cell.val == SetAt(old(value.cell.val), value.path, value.Get())
      ensures old(NeedsInit()) && field.kind == Map ==> value.Get() == MapV(Some([]))
      ensures old(NeedsInit()) && field.kind == Slice ==> value.Get() == SliceV(Some([]))
      ensures old(NeedsInit()) && field.kind == Ptr ==>
        && value.Get().target.Some?
        && fresh(value.Get().target.value)
        && value.Get().target.value.val == Zero(field.typ.elem)
    {
      r := this;
      var v := value;
      match field.kind {
        case Ptr =>
          if IsNil(v.Get()) {
            var c := new Cell(Zero(field.typ.elem));
            Set(v, PointerV(Some(c)));
          }
        case Map =>
          if IsNil(v.Get()) {
            Set(v, MapV(Some([])));
          }
        case Slice =>
          if IsNil(v.Get()) {
            Set(v, SliceV(Some([])));
          }
        case _ =>
      }
    }

    /**
     * `Get`: the field's value, unless the field is invalid (checked
     * first) or unexported, whose errors name the field.
     */
    function Get(): (r: Result<Value, AccessError>)
      reads value.Frame()
      requires field.IsValid() && field.IsExported() ==> value.Valid()
      ensures r.Success? <==> field.IsValid() && field.IsExported()
      ensures r.Success? ==> r.value == value.Get()
      ensures r.Failure? ==> (r.error == ErrInvField <==> !field.IsValid())
      ensures r.Failure? && field.IsValid() ==> r.error == ErrUnexportedField(field.Name())
    {
      if !field.IsValid() then Failure(ErrInvField)
      else if !field.IsExported() then Failure(ErrUnexportedField(field.Name()))
      else Success(value.Get())
    }

    /**
     * `StructValue`: the field as a struct value, with the (cached)
     * metadata of the field's type, the same value and the field's kind.
     */
    method AsStruct(cache: Cache) returns (sv: StructValue)
      requires cache.Valid()
      requires Derivable(TagParser.Indirect(field.typ))
      modifies cache
      ensures cache.Valid()
      ensures sv.metadata == MetadataOf(TagParser.Indirect(field.typ))
      ensures sv.value == value && sv.kind == field.kind
      ensures cache.entries == old(cache.entries)[TagParser.Indirect(field.typ) := sv.metadata]
    {
      var md := cache.TypeMetadata(field.typ);
      sv := Bind(md, value, field.kind);
    }
  }

  /**
   * `StructValue`: struct metadata and a live struct, held through a
   * pointer when `kind` is `Ptr` and directly otherwise.
   */
  datatype StructValue = Bind(metadata: Metadata, value: Handle, kind: Kind) {

    /** `IsPtr`: the struct is held through a pointer. */
    predicate IsPtr() {
      kind == Ptr
    }

    /** The handle is live and, when the value is held through a pointer, is a pointer. */
    predicate Live()
      reads value.Frame()
    {
      value.Valid() && (IsPtr() ==> value.Get().PointerV?)
    }

    /** The struct itself: the pointee for a pointer (absent when nil), the value otherwise. */
    function Target(): (r: Option<Handle>)
      reads value.Frame()
      requires Live()
      ensures r.Some? ==> r.value.Valid()
      ensures r.None? <==> IsPtr() && IsNil(value.Get())
      ensures r.Some? ==> r.value.Get() == if IsPtr() then value.Get().target.value.val else value.Get()
    {
      if IsPtr() then value.Elem() else Some(value)
    }

    /** The objects the struct lives in: the handle's cell and, for a pointer, its pointee. */
    function Frame(): set<object>
      reads value.Frame()
    {
      value.Frame() +
        if Live() && IsPtr() && value.Get().target.Some? then {value.Get().target.value} else {}
    }

    /**
     * The metadata describes a struct type, field by field in declaration
     * order, and the bound struct is live and has as many fields.
     */
    predicate Ready()
      reads Frame()
    {
      && Live()
      && metadata.typ.StructOf?
      && |metadata.fields| == |metadata.typ.fields|
      && metadata.Names() == DeclNames(metadata.typ)
      && Target().Some?
      && Target().value.Get().StructV?
      && |Target().value.Get().fields| == |metadata.typ.fields|
    }

    /** `NumField`: the number of fields of the struct type. */
    function NumField(): (n: nat)
      requires metadata.typ.StructOf?
      ensures n == |metadata.typ.fields|
    {
      |metadata.typ.fields|
    }

    /**
     * `FieldByName`: the first field declared with `name`, paired with its
     * value in the bound struct; absent when no field has that name.
     */
    function FieldByName(name: string): (r: Option<FieldValue>)
      reads Frame()
      requires Ready()
      ensures r.None? <==> name !in metadata.Names()
      ensures r.Some? ==> exists i | 0 <= i < |metadata.fields| ::
        && metadata.fields[i].Name() == name
        && name !in metadata.Names()[..i]
        && r.value.field == metadata.fields[i]
        && r.value.value.Valid()
        && r.value.value.Get() == Target().value.Get().fields[i]
    {
      var idx := DeclIndex(metadata.typ, name);
      if idx.None? || metadata.FieldNamed(name).None? then None
      else Some(FieldValue(metadata.FieldNamed(name).value, Target().value.Field(idx.value)))
    }

    /**
     * `FieldByIndex`: the field at position `idx` paired with its value in
     * the bound struct; absent when `idx` is out of range, which is
     * checked before the struct is touched, so a nil struct pointer is
     * allowed then.
     */
    function FieldByIndex(idx: nat): (r: Option<FieldValue>)
      reads value.Frame(), Frame()
      requires Live() && metadata.typ.StructOf?
      requires idx < NumField() ==> Ready()
      ensures r.None? <==> idx >= NumField()
      ensures r.Some? ==> r.value.field == metadata.fields[idx]
      ensures r.Some? ==> r.value.value.Valid() && r.value.value.Get() == Target().value.Get().fields[idx]
    {
      if idx >= NumField() || metadata.FieldByIndex(idx).None? then None
      else Some(FieldValue(metadata.FieldByIndex(idx).value, Target().value.Field(idx)))
    }

    /**
     * `NewIfNil`: a nil struct pointer is pointed at a fresh zero value of
     * the struct type; any other value is left alone.  Returns the receiver.
     */
    method NewIfNil() returns (r: StructValue)
      requires Live()
      requires IsPtr() && IsNil(value.Get()) ==> value.At?
      modifies value.Frame()
      ensures r == this
      ensures Live()
      ensures !old(IsPtr() && IsNil(value.Get())) ==> unchanged(value.Frame())
      ensures old(IsPtr() && IsNil(value.Get())) ==>
        && value.cell.val == SetAt(old(value.cell.val), value.path, value.Get())
        && value.Get().target.Some?
        && fresh(value.Get().target.value)
        && value.Get().target.value.val == Zero(metadata.typ)
    {
      r := this;
      if IsPtr() && IsNil(value.Get()) {
        var c := new Cell(Zero(metadata.typ));
        Set(value, PointerV(Some(c)));
      }
    }
  }

  /** `IsValid`: a struct value exists and its handle is live. */
  predicate IsValid(sv: Option<StructValue>)
    reads if sv.Some? then sv.value.value.Frame() else {}
  {
    sv.Some? && sv.value.value.Valid()
  }

  /**
   * `NewStructValue`: wraps a non-nil pointer to a struct together with
   * the (cached) metadata of the struct type; nil, a non-pointer, a nil
   * pointer and a pointer to a non-struct give no struct value.
   */
  method NewStructValue(s: Any, cache: Cache) returns (sv: Option<StructValue>)
    requires cache.Valid()
    requires s.Boxed? ==> Fits(s.val, s.typ)
    requires s.Boxed? && s.typ.Pointer? && s.typ.elem.StructOf? && !IsNil(s.val) ==>
      Derivable(s.typ.elem)
    modifies cache
    ensures cache.Valid()
    ensures sv.Some? <==>
      s.Boxed? && s.typ.Pointer? && !IsNil(s.val) && s.typ.elem.Kind() == Struct
    ensures sv.Some? ==> sv.value == Bind(MetadataOf(s.typ.elem), Direct(s.val), Ptr)
    ensures sv.Some? ==> cache.entries == old(cache.entries)[s.typ.elem := sv.value.metadata]
    ensures sv.None? ==> cache.entries == old(cache.entries)
  {
    var kind := KindOf(s);
    if kind != Ptr {
      return None;
    }
    var value := Direct(s.val);
    var val := value.Elem();
    if val.None? || s.typ.elem.Kind() != Struct {
      return None;
    }
    var md := cache.MetadataFor(s);
    sv := Some(Bind(md, value, kind));
  }

  /** A struct value made by `NewStructValue` for a pointer whose pointee has the struct's shape is ready. */
  lemma NewStructValueReady(s: Any, sv: StructValue)
    requires s.Boxed? && s.typ.Pointer? && s.typ.elem.StructOf? && Derivable(s.typ.elem)
    requires s.val.PointerV? && s.val.target.Some? && Fits(s.val.target.value.val, s.typ.elem)
    requires sv == Bind(MetadataOf(s.typ.elem), Direct(s.val), Ptr)
    ensures sv.Ready()
  {
    MetadataOfShape(s.typ.elem);
    assert sv.metadata.Names() == DeclNames(s.typ.elem);
  }
}
