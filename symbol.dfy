/**
 * The outline's data model: symbol kinds with their wire names, positions,
 * ranges, symbols with nested children, and the per-file map.
 */
module Symbols {
  import opened Wrappers

  datatype SymbolKind =
    | Class | Function | Method | Variable | Constant | Interface | Enum
    | Module | Property | Constructor | Field | EnumMember | Type | Namespace

  /** All fourteen kinds, in declaration order. */
  const AllKinds: seq<SymbolKind> := [
    Class, Function, Method, Variable, Constant, Interface, Enum,
    Module, Property, Constructor, Field, EnumMember, Type, Namespace]

  /** `SymbolKind::as_str`: the lowercase wire name of a kind. */
  function KindName(k: SymbolKind): string
  {
    match k
    case Class => "class"
    case Function => "function"
    case Method => "method"
    case Variable => "variable"
    case Constant => "constant"
    case Interface => "interface"
    case Enum => "enum"
    case Module => "module"
    case Property => "property"
    case Constructor => "constructor"
    case Field => "field"
    case EnumMember => "enum_member"
    case Type => "type"
    case Namespace => "namespace"
  }

  /** The Rust variant name of a kind, which serde rewrites to snake_case. */
  function VariantName(k: SymbolKind): string
  {
    match k
    case Class => "Class"
    case Function => "Function"
    case Method => "Method"
    case Variable => "Variable"
    case Constant => "Constant"
    case Interface => "Interface"
    case Enum => "Enum"
    case Module => "Module"
    case Property => "Property"
    case Constructor => "Constructor"
    case Field => "Field"
    case EnumMember => "EnumMember"
    case Type => "Type"
    case Namespace => "Namespace"
  }

  predicate IsUpper(c: char) { 'A' <= c <= 'Z' }

  function ToLower(c: char): (r: char)
    ensures IsUpper(c) ==> 'a' <= r <= 'z'
    ensures !IsUpper(c) ==> r == c
  {
    if IsUpper(c) then (c as int + 32) as char else c
  }

  /**
   * serde's `rename_all = "snake_case"` on a variant name: every upper-case
   * letter is lowered, and all but the first are preceded by `_`.
   */
  function SnakeCase(s: string): string
  {
    if |s| == 0 then "" else [ToLower(s[0])] + SnakeTail(s[1..])
  }

  /** The snake_case form of what follows the first letter. */
  function SnakeTail(s: string): string
  {
    if |s| == 0 then ""
    else (if IsUpper(s[0]) then "_" else "") + [ToLower(s[0])] + SnakeTail(s[1..])
  }

  /** A tail without upper-case letters is copied unchanged. */
  lemma {:induction false} SnakeTailLower(s: string)
    requires forall k :: 0 <= k < |s| ==> !IsUpper(s[k])
    ensures SnakeTail(s) == s
  {
    if |s| > 0 {
      SnakeTailLower(s[1..]);
      assert s == [s[0]] + s[1..];
    }
  }

  /** A one-word variant name is its first letter lowered followed by the rest. */
  lemma OneWordSnake(v: string)
    requires |v| > 0 && IsUpper(v[0])
    requires forall k :: 1 <= k < |v| ==> !IsUpper(v[k])
    ensures SnakeCase(v) == [ToLower(v[0])] + v[1..]
  {
    SnakeTailLower(v[1..]);
  }

  lemma {:induction false} SnakeTailAppend(x: string, y: string)
    ensures SnakeTail(x + y) == SnakeTail(x) + SnakeTail(y)
  {
    if |x| > 0 {
      assert (x + y)[1..] == x[1..] + y;
      SnakeTailAppend(x[1..], y);
    } else {
      assert x + y == y;
    }
  }

  lemma MemberSnakeTail(w: string)
    requires w == "Member"
    ensures SnakeTail(w) == "_member"
  {
    SnakeTailLower(w[1..]);
    assert w == [w[0]] + w[1..];
  }

  lemma NumMemberSnakeTail(w: string)
    requires w == "numMember"
    ensures SnakeTail(w) == "num_member"
  {
    var num, member := w[..3], w[3..];
    assert w == num + member;
    SnakeTailAppend(num, member);
    SnakeTailLower(num);
    MemberSnakeTail(member);
  }

  /** The one two-word variant: `EnumMember` becomes `enum_member`. */
  lemma EnumMemberSnake(v: string)
    requires v == "EnumMember"
    ensures SnakeCase(v) == "enum_member"
  {
    NumMemberSnakeTail(v[1..]);
  }

  /**
   * The one-word kinds, a few at a time: each group is proved on its own so
   * that the solver unfolds only a few literal names at once.
   */
  lemma OneWordKindsA(k: SymbolKind)
    requires k == Class || k == Function
    ensures KindName(k) == SnakeCase(VariantName(k))
  {
    OneWordSnake(VariantName(k));
  }

  lemma OneWordKindsB(k: SymbolKind)
    requires k == Method || k == Variable
    ensures KindName(k) == SnakeCase(VariantName(k))
  {
    OneWordSnake(VariantName(k));
  }

  lemma OneWordKindsC(k: SymbolKind)
    requires k == Constant || k == Interface
    ensures KindName(k) == SnakeCase(VariantName(k))
  {
    OneWordSnake(VariantName(k));
  }

  lemma OneWordKindsD(k: SymbolKind)
    requires k == Enum || k == Module
    ensures KindName(k) == SnakeCase(VariantName(k))
  {
    OneWordSnake(VariantName(k));
  }

  lemma OneWordKindsE(k: SymbolKind)
    requires k == Property
    ensures KindName(k) == SnakeCase(VariantName(k))
  {
    OneWordSnake(VariantName(k));
  }

  lemma OneWordKindsF(k: SymbolKind)
    requires k == Field || k == Type
    ensures KindName(k) == SnakeCase(VariantName(k))
  {
    OneWordSnake(VariantName(k));
  }

  lemma OneWordKindsG(k: SymbolKind)
    requires k == Namespace
    ensures KindName(k) == SnakeCase(VariantName(k))
  {
    OneWordSnake(VariantName(k));
  }

  lemma OneWordKindsH(k: SymbolKind)
    requires k == Constructor
    ensures KindName(k) == SnakeCase(VariantName(k))
  {
    OneWordSnake(VariantName(k));
  }

  /** The hand-written wire names agree with what serde derives for the enum. */
  lemma KindNameIsSnakeCase(k: SymbolKind)
    ensures KindName(k) == SnakeCase(VariantName(k))
  {
    match k
    case EnumMember => EnumMemberSnake(VariantName(k));
    case Class | Function => OneWordKindsA(k);
    case Method | Variable => OneWordKindsB(k);
    case Constant | Interface => OneWordKindsC(k);
    case Enum | Module => OneWordKindsD(k);
    case Property => OneWordKindsE(k);
    case Field | Type => OneWordKindsF(k);
    case Namespace => OneWordKindsG(k);
    case Constructor => OneWordKindsH(k);
  }

  /** No two kinds share a wire name. */
  lemma KindNameInjective(a: SymbolKind, b: SymbolKind)
    ensures KindName(a) == KindName(b) ==> a == b
  {
  }

  /** Wire names are non-empty, lowercase letters and `_` only (so never a newline). */
  lemma KindNameAlphabet(k: SymbolKind)
    ensures |KindName(k)| > 0
    ensures forall i :: 0 <= i < |KindName(k)| ==> 'a' <= KindName(k)[i] <= 'z' || KindName(k)[i] == '_'
  {
  }

  /** Line is 1-based, column 0-based. */
  datatype Position = Position(line: nat, column: nat)

  datatype Range = Range(start: Position, end: Position)

  datatype Symbol = Symbol(
    name: string,
    kind: SymbolKind,
    detail: Option<string>,
    range: Range,
    children: seq<Symbol>)

  datatype FileMap = FileMap(path: string, language: string, symbols: seq<Symbol>)

  /**
   * The object keys serde writes for a symbol, in order: `detail` is skipped
   * when absent and `children` when empty.
   */
  function ExportedKeys(s: Symbol): (keys: seq<string>)
    ensures "name" in keys && "kind" in keys && "range" in keys
    ensures "detail" in keys <==> s.detail.Some?
    ensures "children" in keys <==> |s.children| > 0
    ensures keys[0] == "name" && keys[1] == "kind"
  {
    ["name", "kind"]
    + (if s.detail.Some? then ["detail"] else [])
    + ["range"]
    + (if |s.children| > 0 then ["children"] else [])
  }

  /** Total number of symbols in a forest, descendants included. */
  function Count(forest: seq<Symbol>): nat
  {
    if |forest| == 0 then 0
    else 1 + Count(forest[0].children) + Count(forest[1..])
  }

  lemma {:induction false} CountConcat(a: seq<Symbol>, b: seq<Symbol>)
    ensures Count(a + b) == Count(a) + Count(b)
    decreases |a|
  {
    if |a| == 0 {
      assert a + b == b;
    } else {
      assert (a + b)[0] == a[0] && (a + b)[1..] == a[1..] + b;
      CountConcat(a[1..], b);
    }
  }
}
