/** The literal evaluator of semantic analysis: value data, and the evaluation of
    nil, string and boolean literals. Every other expression fails to evaluate. */
module Sema {
  import opened Wrappers
  import Ast

  /** What `build_prim_type` builds for a primitive keyword; its construction is not
      part of this model, only which keyword it was built from. */
  datatype PrimType = Prim(name: string)

  /** Sema's type kind: a wrapper whose inner kind is nil for void. */
  datatype TypeKind = TypeKind(kind: Option<PrimType>)

  /** Value data. A nil `kind` is the data of the nil literal. */
  datatype Data = Data(kind: Option<TypeKind>, mutable: bool, lvalue: bool, constant: bool)

  /** A literal expression: the text of its value. */
  datatype LitExpr = LitExpr(value: string)

  /** The kinds of expression data; only literals are evaluated. */
  datatype ExprData = Lit(lit: LitExpr) | OtherExpr(code: nat)

  /** An expression. */
  datatype Expr = Expr(kind: ExprData)

  /** The lexer's and the syntax tree's classification of literals, which is not part of
      this model: `LitExpr.Is_nil`, `lex.Is_str` and `lex.Is_bool`. */
  datatype Lexicon = Lexicon(isNil: LitExpr -> bool, isStr: string -> bool, isBool: string -> bool)

  /** `Is_nil`. */
  predicate IsNil(d: Data)
  {
    d.kind.None?
  }

  /** `Is_void`. */
  predicate IsVoid(d: Data)
  {
    d.kind.Some? && d.kind.value.kind.None?
  }

  /** The invariant every evaluated literal keeps: constant data is neither mutable nor
      an lvalue. */
  predicate ConstantImmutable(d: Data)
  {
    d.constant ==> !d.mutable && !d.lvalue
  }

  /** Data of a string or boolean literal: the constant data of the primitive type named by
      the keyword. */
  predicate IsPrimConstant(d: Data, p: Ast.Primitive)
  {
    d == Data(Some(TypeKind(Some(Prim(Ast.Keyword(p))))), false, false, true)
  }

  /** Nil and void are exclusive. */
  lemma NilNotVoid(d: Data)
    ensures !(IsNil(d) && IsVoid(d))
    ensures IsNil(d) || IsVoid(d) || d.kind.value.kind.Some?
  {
  }

  /** `build_void_data`: void data with every flag false. */
  function BuildVoidData(): (d: Data)
    ensures IsVoid(d) && !IsNil(d)
    ensures !d.mutable && !d.lvalue && !d.constant
  {
    Data(Some(TypeKind(None)), false, false, false)
  }

  /** `_Eval.is_unsafe`: evaluation never happens in an unsafe scope yet. */
  function IsUnsafe(): (r: bool)
    ensures !r
  {
    false
  }

  /** `lit_nil`: constant data of the nil literal. */
  function LitNil(): (d: Data)
    ensures IsNil(d) && !IsVoid(d)
    ensures d.constant && !d.mutable && !d.lvalue
  {
    Data(None, false, false, true)
  }

  /** `lit_str`: constant data of the primitive type `str`. */
  function LitStr(lit: LitExpr): (d: Data)
    ensures !IsNil(d) && !IsVoid(d)
    ensures d.constant && !d.mutable && !d.lvalue
    ensures d.kind.value.kind == Some(Prim("str"))
  {
    Data(Some(TypeKind(Some(Prim(Ast.Keyword(Ast.Str))))), false, false, true)
  }

  /** `lit_bool`: constant data of the primitive type `bool`. */
  function LitBool(lit: LitExpr): (d: Data)
    ensures !IsNil(d) && !IsVoid(d)
    ensures d.constant && !d.mutable && !d.lvalue
    ensures d.kind.value.kind == Some(Prim("bool"))
  {
    Data(Some(TypeKind(Some(Prim(Ast.Keyword(Ast.Bool))))), false, false, true)
  }

  /** `eval_lit`: nil first, then string, then boolean; anything else fails. */
  function EvalLit(lx: Lexicon, lit: LitExpr): (r: Option<Data>)
    ensures r.None? <==> !lx.isNil(lit) && !lx.isStr(lit.value) && !lx.isBool(lit.value)
    ensures r.Some? ==> ConstantImmutable(r.value) && !IsVoid(r.value)
  {
    if lx.isNil(lit) then Some(LitNil())
    else if lx.isStr(lit.value) then Some(LitStr(lit))
    else if lx.isBool(lit.value) then Some(LitBool(lit))
    else None
  }

  /** `eval_expr_kind`: only literals are evaluated. */
  function EvalExprKind(lx: Lexicon, kind: ExprData): (r: Option<Data>)
    ensures !kind.Lit? ==> r.None?
  {
    match kind
    case Lit(lit) => EvalLit(lx, lit)
    case OtherExpr(_) => None
  }

  /** `eval`: evaluates the expression's data; None when evaluation fails. */
  function Eval(lx: Lexicon, e: Expr): (r: Option<Data>)
    ensures r.Some? ==> e.kind.Lit? && r.value.constant && !r.value.mutable && !r.value.lvalue
  {
    EvalExprKind(lx, e.kind)
  }

  /** The tie-break order: nil wins over string and boolean, and string over boolean,
      whatever else the literal's value satisfies. */
  lemma EvalLitOrder(lx: Lexicon, lit: LitExpr)
    ensures lx.isNil(lit) ==> EvalLit(lx, lit) == Some(LitNil())
    ensures !lx.isNil(lit) && lx.isStr(lit.value) ==> EvalLit(lx, lit).Some? && IsPrimConstant(EvalLit(lx, lit).value, Ast.Str)
    ensures !lx.isNil(lit) && !lx.isStr(lit.value) && lx.isBool(lit.value) ==>
      EvalLit(lx, lit).Some? && IsPrimConstant(EvalLit(lx, lit).value, Ast.Bool)
  {
  }

  /** Evaluation succeeds exactly on literals the lexicon classifies, and then yields
      nil data or str or bool constant data, never void. */
  lemma EvalOutcome(lx: Lexicon, e: Expr)
    ensures Eval(lx, e).Some? <==>
      e.kind.Lit? && (lx.isNil(e.kind.lit) || lx.isStr(e.kind.lit.value) || lx.isBool(e.kind.lit.value))
    ensures Eval(lx, e).Some? ==>
      var d := Eval(lx, e).value;
      (IsNil(d) <==> lx.isNil(e.kind.lit)) && !IsVoid(d) &&
      (IsNil(d) || IsPrimConstant(d, Ast.Str) || IsPrimConstant(d, Ast.Bool))
  {
  }

  /** Every successful evaluation keeps the constant invariant; void data does not arise. */
  lemma EvalKeepsConstantInvariant(lx: Lexicon, e: Expr)
    ensures Eval(lx, e).Some? ==> ConstantImmutable(Eval(lx, e).value) && Eval(lx, e).value != BuildVoidData()
  {
  }
}
