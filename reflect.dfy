/**
 * The slice of Go's runtime reflection that the mirror package consumes:
 * type descriptors (kind, element and key types, declared fields) and live
 * values that can be read and written in place.  Types are inductive, so a
 * self-referential struct type cannot be described.
 */
module Reflect {
  import opened Wrappers

  /**
   * The kinds the package distinguishes (a subset of `reflect.Kind`);
   * `Invalid` is the kind of the zero `reflect.Value`, which no type has.
   */
  datatype Kind = Invalid | Bool | Int | Float64 | String | Func | Interface
                | Ptr | Slice | Array | Map | Struct

  /** Kinds whose types carry no element, key or field information. */
  type BasicKind = k: Kind | k.Bool? || k.Int? || k.Float64? || k.String? || k.Func? || k.Interface?
    witness Bool

  /** A type descriptor, the stand-in for `reflect.Type`. */
  datatype Type =
    | Basic(basic: BasicKind, name: string)
    | Pointer(elem: Type)
    | SliceOf(elem: Type)
    | ArrayOf(length: nat, elem: Type)
    | MapOf(key: Type, elem: Type)
    | StructOf(name: string, fields: seq<FieldDecl>)
  {
    /** `reflect.Type.Kind`. */
    function Kind(): Kind {
      match this
      case Basic(k, _) => k
      case Pointer(_) => Ptr
      case SliceOf(_) => Slice
      case ArrayOf(_, _) => Array
      case MapOf(_, _) => Map
      case StructOf(_, _) => Struct
    }
  }

  /** One field as written in a struct type declaration. */
  datatype FieldDecl = FieldDecl(name: string, typ: Type, tag: string, exported: bool, anonymous: bool)

  /** `reflect.StructField`: a declared field together with its index path. */
  datatype StructField = StructField(name: string, typ: Type, tag: string,
                                     exported: bool, anonymous: bool, index: seq<int>)

  /** `reflect.Type.Field(i)`: the i-th declared field, whose index path is `[i]`. */
  function FieldAt(t: Type, i: nat): (sf: StructField)
    requires t.StructOf? && i < |t.fields|
    ensures sf.typ < t
  {
    var d := t.fields[i];
    assert d in t.fields;
    StructField(d.name, d.typ, d.tag, d.exported, d.anonymous, [i])
  }

  /** A Go `any`: nil, or a value together with its dynamic type. */
  datatype Any = NilAny | Boxed(typ: Type, val: Value)

  /** `reflect.ValueOf(a).Kind()`: the kind of the dynamic type, `Invalid` for nil. */
  function KindOf(a: Any): (k: Kind)
    ensures k == Invalid <==> a.NilAny?
  {
    if a.NilAny? then Invalid else a.typ.Kind()
  }

  /** A Go variable: a heap location that a pointer can refer to. */
  class Cell {
    var val: Value

    constructor (v: Value)
      ensures val == v
    {
      val := v;
    }
  }

  /**
   * A Go value.  Struct and array elements are stored inline, as in Go's
   * memory layout; pointers refer to cells.  Scalars carry an opaque payload.
   * `None` stands for a nil pointer, slice, map or interface.
   */
  datatype Value =
    | Scalar(lit: string)
    | PointerV(target: Option<Cell>)
    | SliceV(elems: Option<seq<Value>>)
    | MapV(entries: Option<seq<(Value, Value)>>)
    | ArrayV(items: seq<Value>)
    | StructV(fields: seq<Value>)
    | IfaceV(dyn: Option<Value>)

  /** `reflect.Value.IsNil` for the nil-able kinds; false for every other value. */
  predicate IsNil(v: Value) {
    || v == PointerV(None) || v == SliceV(None) || v == MapV(None) || v == IfaceV(None)
  }

  /** Whether a value has the shape of its type (one level deep). */
  predicate Fits(v: Value, t: Type) {
    match t
    case Basic(k, _) => if k == Interface then v.IfaceV? else v.Scalar?
    case Pointer(_) => v.PointerV?
    case SliceOf(_) => v.SliceV?
    case ArrayOf(n, _) => v.ArrayV? && |v.items| == n
    case MapOf(_, _) => v.MapV?
    case StructOf(_, fs) => v.StructV? && |v.fields| == |fs|
  }

  /** The zero value of a type, what `reflect.New` stores in a fresh variable. */
  function Zero(t: Type): (v: Value)
    ensures Fits(v, t)
    ensures t.Pointer? || t.SliceOf? || t.MapOf? || t.Kind() == Interface ==> IsNil(v)
  {
    match t
    case Basic(k, _) => if k == Interface then IfaceV(None) else Scalar("")
    case Pointer(_) => PointerV(None)
    case SliceOf(_) => SliceV(None)
    case ArrayOf(n, e) => ArrayV(seq(n, _ => Zero(e)))
    case MapOf(_, _) => MapV(None)
    case StructOf(_, fs) =>
      StructV(seq(|fs|, i requires 0 <= i < |fs| => assert fs[i] in fs; Zero(fs[i].typ)))
  }

  /** The part of `v` reached by following struct field indices `path`. */
  function ValueAt(v: Value, path: seq<nat>): Option<Value> {
    if path == [] then Some(v)
    else if v.StructV? && path[0] < |v.fields| then ValueAt(v.fields[path[0]], path[1..])
    else None
  }

  /** `v` with the part at `path` replaced by `x`. */
  function SetAt(v: Value, path: seq<nat>, x: Value): Value
    requires ValueAt(v, path).Some?
  {
    if path == [] then x
    else StructV(v.fields[path[0] := SetAt(v.fields[path[0]], path[1..], x)])
  }

  /** Writing a part and reading it back gives what was written. */
  lemma {:induction false} ValueAtSetAt(v: Value, path: seq<nat>, x: Value)
    requires ValueAt(v, path).Some?
    ensures ValueAt(SetAt(v, path, x), path) == Some(x)
  {
    if path != [] {
      ValueAtSetAt(v.fields[path[0]], path[1..], x);
    }
  }

  /**
   * `reflect.Value`: either a value held directly (as `reflect.ValueOf`
   * gives) or an addressable location, a path inside a cell (as
   * `Elem` of a pointer and then `Field` give).
   */
  datatype Handle = Direct(v: Value) | At(cell: Cell, path: seq<nat>) {
    function Frame(): set<object> {
      if At? then {cell} else {}
    }

    /** The handle denotes a value (`reflect.Value.IsValid`). */
    predicate Valid()
      reads Frame()
    {
      Direct? || ValueAt(cell.val, path).Some?
    }

    /** The value currently denoted. */
    function Get(): Value
      reads Frame()
      requires Valid()
    {
      if Direct? then v else ValueAt(cell.val, path).value
    }

    /** `reflect.Value.Elem` on a pointer: the pointee, absent for nil. */
    function Elem(): (r: Option<Handle>)
      reads Frame()
      requires Valid() && Get().PointerV?
      ensures r.Some? <==> !IsNil(Get())
      ensures r.Some? ==> r.value.Valid()
      ensures r.Some? ==> r.value.Get() == Get().target.value.val
    {
      match Get().target
      case None => None
      case Some(c) => Some(At(c, []))
    }

    /** `reflect.Value.Field(i)` on a struct value. */
    function Field(i: nat): (r: Handle)
      reads Frame()
      requires Valid() && Get().StructV? && i < |Get().fields|
      ensures r.Valid() && r.Get() == Get().fields[i]
    {
      if Direct? then Direct(v.fields[i])
      else ValueAtAppend(cell.val, path, i); At(cell, path + [i])
    }
  }

  /** Following one more field index from a struct part reaches that field. */
  lemma {:induction false} ValueAtAppend(v: Value, path: seq<nat>, i: nat)
    requires ValueAt(v, path).Some? && ValueAt(v, path).value.StructV?
    requires i < |ValueAt(v, path).value.fields|
    ensures ValueAt(v, path + [i]) == Some(ValueAt(v, path).value.fields[i])
  {
    if path != [] {
      assert (path + [i])[1..] == path[1..] + [i];
      ValueAtAppend(v.fields[path[0]], path[1..], i);
    }
  }

  /** `reflect.Value.Set` on an addressable handle. */
  method Set(h: Handle, x: Value)
    requires h.At? && h.Valid()
    modifies h.cell
    ensures h.cell.val == SetAt(old(h.cell.val), h.path, x)
    ensures h.Valid() && h.Get() == x
  {
    ValueAtSetAt(h.cell.val, h.path, x);
    h.cell.val := SetAt(h.cell.val, h.path, x);
  }
}
