/** The semantic type algebra: one tree of types with four attributes on every node. */
module Types {
  import Text

  datatype Option<+T> = None | Some(value: T)

  /** '#', may-zero, '$' and 'cede'. */
  datatype Attr = Attr(w: bool, n: bool, b: bool, c: bool)

  const PLAIN := Attr(false, false, false, false)

  /** Nodes without parts. */
  datatype Leaf = Primitive(name: string) | Unit | Void | Never | Unresolved(name: string)

  /** Nodes with one part: the four handles '*', '^', '~', '&', then slice, outcome and uninit wrappers. */
  datatype Wrapper = Raw | Unique | Shared | Ref | Slice | Miss | Uninit | Place

  /** A function type, or a dynamic callable (which is never variadic). */
  datatype CallForm = PlainFn(variadic: bool) | DynFn

  datatype Receiver = SharedCall | MutableCall | ConsumingCall

  /** A shape declaration as far as type identity looks at it. `template` is NoDecl unless the
      declaration is a generic instance; `nominal` is the canonical text of its nominal id. */
  datatype Decl =
    | NoDecl
    | Decl(name: string, codegenName: string, nominal: Option<string>, template: Decl, targs: seq<Ty>)

  datatype Ty =
    | Atom(a: Attr, leaf: Leaf)
    | Wrap(a: Attr, wrapper: Wrapper, inner: Ty)
    | Array(a: Attr, elem: Ty, size: nat, extent: string)
    | Shape(a: Attr, name: string, args: seq<Ty>, variant: string, decl: Decl)
    | Callable(a: Attr, form: CallForm, params: seq<Ty>, ret: Ty, mode: Receiver)

  /** uint64_t. */
  const LIMIT64: nat := 0x1_0000_0000_0000_0000

  /** The numbering of Type::Kind. */
  function Kind(t: Ty): (k: nat)
    ensures k <= 16
  {
    match t
    case Atom(_, leaf) => (match leaf
      case Primitive(_) => 0 case Unit => 1 case Void => 2 case Never => 3 case Unresolved(_) => 15)
    case Wrap(_, wrapper, _) => (match wrapper
      case Raw => 4 case Unique => 5 case Shared => 6 case Ref => 7
      case Slice => 9 case Miss => 13 case Uninit => 14 case Place => 16)
    case Array(_, _, _, _) => 8
    case Shape(_, _, _, _, _) => 10
    case Callable(_, form, _, _, _) => if form.PlainFn? then 11 else 12
  }

  predicate IsHandle(w: Wrapper) {
    w.Raw? || w.Unique? || w.Shared? || w.Ref?
  }

  predicate IsPointer(t: Ty) {
    t.Wrap? && IsHandle(t.wrapper)
  }

  predicate IsRaw(t: Ty) {
    t.Wrap? && t.wrapper.Raw?
  }

  /** The same node under other attributes. */
  function SetAttr(t: Ty, a: Attr): Ty {
    t.(a := a)
  }

  /** A clone under new attributes: a block is never lifted and absorbs the write mark, only a raw
      pointer may stay may-zero, the cede mark is kept, and a bound shape takes its declaration's name. */
  function WithAttributes(t: Ty, w: bool, n: bool, b: bool): Ty {
    var blocked := b || t.a.b;
    var attr := Attr(w && !blocked, n && IsRaw(t), blocked, t.a.c);
    if t.Shape? && t.decl.Decl? then t.(a := attr, name := t.decl.name) else t.(a := attr)
  }

  /** A node that WithAttributes leaves alone when it is given the node's own marks. */
  predicate Settled(t: Ty) {
    && !(t.a.w && t.a.b)
    && (t.a.n ==> IsRaw(t))
    && (t.Shape? && t.decl.Decl? ==> t.name == t.decl.name)
  }

  predicate IsPrimitiveName(s: string) {
    s == "i32" || s == "i64" || s == "u32" || s == "u64" || s == "f32" || s == "f64" || s == "bool" ||
    s == "char" || s == "i8" || s == "u8" || s == "i16" || s == "u16" || s == "usize" || s == "isize" ||
    s == "byte" || s == "null" || s == "Addr" || s == "OAddr"
  }

  predicate IsIntegerName(s: string) {
    s == "i32" || s == "i64" || s == "u32" || s == "u64" || s == "i8" || s == "u8" || s == "i16" ||
    s == "u16" || s == "isize" || s == "usize" || s == "char" || s == "byte"
  }

  /** A decimal numeral whose value a uint64_t can hold. */
  predicate FitsUInt64(s: string) {
    s != "" && Text.AllDigits(s) && Text.DecimalValue(s) < LIMIT64
  }

  /** A length is either a number or a symbol that cannot be taken for one. */
  predicate ExtentOk(size: nat, extent: string) {
    size < LIMIT64 && (extent != "" ==> size == 0 && !FitsUInt64(extent))
  }
}
