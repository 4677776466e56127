/** Type nodes of the syntax tree: the primitive-type queries on an unresolved type
    token and the canonical text of a type. */
module Ast {
  import opened Wrappers

  /** Token identifiers of the lexer. Only the two the type queries compare against are
      named; every other identifier is some other, distinct value. */
  datatype TokenId = IdDt | IdNa | IdOther(code: nat)

  /** A lexer token: its identifier and its text. */
  datatype Token = Token(id: TokenId, kind: string)

  /** A type: the token it was written with and, once known, its kind. `kind == None`
      is the nil interface. */
  datatype Type = Type(token: Token, kind: Option<TypeKind>)

  /** The kinds a type can have: an identifier, a reference to an element type (nil
      when absent), a list of return types, or a type used directly as a kind. */
  datatype TypeKind =
    | Ident(ident: string)
    | Ref(elem: Option<Type>)
    | MultiRet(types: seq<Type>)
    | Nested(inner: Type)

  /** The sixteen primitive types that have a query `IsI8` ... `IsAny`. */
  datatype Primitive =
    | I8 | I16 | I32 | I64 | U8 | U16 | U32 | U64
    | F32 | F64 | Int | Uint | Uintptr | Bool | Str | Any

  /** The keyword text of each primitive type, as the lexer spells it. */
  function Keyword(p: Primitive): string
  {
    match p
    case I8 => "i8"
    case I16 => "i16"
    case I32 => "i32"
    case I64 => "i64"
    case U8 => "u8"
    case U16 => "u16"
    case U32 => "u32"
    case U64 => "u64"
    case F32 => "f32"
    case F64 => "f64"
    case Int => "int"
    case Uint => "uint"
    case Uintptr => "uintptr"
    case Bool => "bool"
    case Str => "str"
    case Any => "any"
  }

  /** Reading a keyword back: the primitive type a token text names, if any. */
  function KeywordPrimitive(s: string): (p: Option<Primitive>)
    ensures p.Some? ==> Keyword(p.value) == s
  {
    if s == "i8" then Some(I8)
    else if s == "i16" then Some(I16)
    else if s == "i32" then Some(I32)
    else if s == "i64" then Some(I64)
    else if s == "u8" then Some(U8)
    else if s == "u16" then Some(U16)
    else if s == "u32" then Some(U32)
    else if s == "u64" then Some(U64)
    else if s == "f32" then Some(F32)
    else if s == "f64" then Some(F64)
    else if s == "int" then Some(Int)
    else if s == "uint" then Some(Uint)
    else if s == "uintptr" then Some(Uintptr)
    else if s == "bool" then Some(Bool)
    else if s == "str" then Some(Str)
    else if s == "any" then Some(Any)
    else None
  }

  /** Every primitive type's keyword reads back as that type. */
  lemma KeywordRoundTrip(p: Primitive)
    ensures KeywordPrimitive(Keyword(p)) == Some(p)
  {
  }

  // ---------------------------------------------------------------- queries

  /** `is_primitive`: only a type without a kind can be primitive, and then only when
      its token is a data-type token spelled as the keyword. */
  predicate IsPrimitive(t: Type, kind: string)
  {
    if t.kind.Some? then false
    else t.token.id == IdDt && t.token.kind == kind
  }

  /** The query for one primitive type: `IsI8` is `IsPrim(t, I8)`, ..., `IsAny` is
      `IsPrim(t, Any)`. */
  predicate IsPrim(t: Type, p: Primitive)
  {
    IsPrimitive(t, Keyword(p))
  }

  /** `IsVoid`: a type without a kind whose token is the "no type" token. */
  predicate IsVoid(t: Type)
  {
    t.kind.None? && t.token.id == IdNa
  }

  /** Which primitive type, if any, a type is, read off its token independently of the
      queries. */
  function PrimitiveOf(t: Type): Option<Primitive>
  {
    if t.kind.None? && t.token.id == IdDt then KeywordPrimitive(t.token.kind) else None
  }

  /** Once a kind is attached, no primitive query holds. */
  lemma KindedNotPrimitive(t: Type, kind: string)
    requires t.kind.Some?
    ensures !IsPrimitive(t, kind)
    ensures forall p :: !IsPrim(t, p)
  {
  }

  /** Without a kind, `is_primitive(kind)` holds exactly for a data-type token spelled `kind`. */
  lemma PrimitiveUnresolved(t: Type, kind: string)
    requires t.kind.None?
    ensures IsPrimitive(t, kind) <==> t.token.id == IdDt && t.token.kind == kind
  {
  }

  /** The query for p holds exactly when the type is the primitive type p. */
  lemma {:induction false} PrimMatchesPrimitiveOf(t: Type, p: Primitive)
    ensures IsPrim(t, p) <==> PrimitiveOf(t) == Some(p)
  {
    KeywordRoundTrip(p);
  }

  /** At most one of `IsI8` ... `IsAny` holds for any type. */
  lemma AtMostOnePrimitive(t: Type, p: Primitive, q: Primitive)
    requires IsPrim(t, p) && IsPrim(t, q)
    ensures p == q
  {
    PrimMatchesPrimitiveOf(t, p);
    PrimMatchesPrimitiveOf(t, q);
  }

  /** A data-type token spelled as a keyword, with no kind, answers exactly that keyword's query. */
  lemma KeywordTokenIsPrimitive(tok: string, p: Primitive, q: Primitive)
    requires tok == Keyword(p)
    ensures IsPrim(Type(Token(IdDt, tok), None), q) <==> p == q
  {
    PrimMatchesPrimitiveOf(Type(Token(IdDt, tok), None), q);
    KeywordRoundTrip(p);
  }

  /** A void type is not primitive. */
  lemma VoidNotPrimitive(t: Type)
    requires IsVoid(t)
    ensures forall kind :: !IsPrimitive(t, kind)
    ensures PrimitiveOf(t) == None
  {
  }

  // ---------------------------------------------------------------- text

  /** `Type.As_text`: the empty string for a nil kind, else the kind's text. */
  function TypeText(t: Type): string
    decreases t, 1
  {
    match t.kind
    case None => ""
    case Some(k) => KindText(k)
  }

  /** `As_text` of each kind. A multi-return kind is its element texts between
      parentheses, separated by commas. */
  function KindText(k: TypeKind): string
    decreases k, 0
  {
    match k
    case Ident(s) => s
    case Ref(None) => ""
    case Ref(Some(e)) => TypeText(e)
    case MultiRet(ts) => "(" + JoinTexts(Texts(ts)) + ")"
    case Nested(t) => TypeText(t)
  }

  /** The texts of a list of types, in order. */
  function Texts(ts: seq<Type>): (ss: seq<string>)
    ensures |ss| == |ts|
    ensures forall i :: 0 <= i < |ts| ==> ss[i] == TypeText(ts[i])
    decreases ts, 2
  {
    if ts == [] then [] else [TypeText(ts[0])] + Texts(ts[1..])
  }

  /** Strings joined by commas, with no leading or trailing comma. */
  function JoinTexts(ss: seq<string>): string
  {
    if |ss| == 0 then ""
    else if |ss| == 1 then ss[0]
    else ss[0] + "," + JoinTexts(ss[1..])
  }

  /** The accumulator of `MultiRetType.As_text` before element i: "(", the texts so far
      joined by commas, and the comma that follows them when more elements come. */
  function Accumulated(ss: seq<string>, i: nat): string
    requires i <= |ss|
  {
    "(" + JoinTexts(ss[..i]) + (if 0 < i < |ss| then "," else "")
  }

  /** Joining one more element of a prefix. */
  lemma JoinPrefixStep(ss: seq<string>, i: nat)
    requires i < |ss|
    ensures JoinTexts(ss[..i + 1]) == if i == 0 then ss[i] else JoinTexts(ss[..i]) + "," + ss[i]
  {
    assert ss[..i + 1] == ss[..i] + [ss[i]];
    JoinSnoc(ss[..i], ss[i]);
  }

  /** Appending element i, and a comma unless it is the last, moves the accumulator on. */
  lemma AccumulatedStep(ss: seq<string>, i: nat)
    requires i < |ss|
    ensures Accumulated(ss, i) + ss[i] + (if i + 1 < |ss| then "," else "") == Accumulated(ss, i + 1)
  {
    JoinPrefixStep(ss, i);
  }

  /** `MultiRetType.As_text`: appends each element's text, and a comma after every
      element but the last, to an accumulator that starts with "(" and ends with ")". */
  method MultiRetText(ts: seq<Type>) returns (kind: string)
    ensures kind == KindText(MultiRet(ts))
  {
    ghost var ss := Texts(ts);
    kind := "(";
    var i := 0;
    while i < |ts|
      invariant 0 <= i <= |ts|
      invariant kind == Accumulated(ss, i)
    {
      AccumulatedStep(ss, i);
      kind := kind + TypeText(ts[i]);
      if i + 1 < |ts| {
        kind := kind + ",";
      }
      i := i + 1;
    }
    assert ss[..i] == ss;
    kind := kind + ")";
  }

  /** Appending one string to a join adds a comma and that string (none for the first). */
  lemma {:induction false} JoinSnoc(ss: seq<string>, s: string)
    ensures JoinTexts(ss + [s]) == if ss == [] then s else JoinTexts(ss) + "," + s
  {
    if |ss| > 1 {
      JoinSnoc(ss[1..], s);
      assert (ss + [s])[1..] == ss[1..] + [s];
    } else if |ss| == 1 {
      assert (ss + [s])[1..] == [s];
    }
  }

  /** Nil kinds, references and direct nesting are transparent to the text. */
  lemma TextTransparency(tok: Token, e: Type)
    ensures TypeText(Type(tok, None)) == ""
    ensures TypeText(Type(tok, Some(Ref(None)))) == ""
    ensures TypeText(Type(tok, Some(Ref(Some(e))))) == TypeText(e)
    ensures TypeText(Type(tok, Some(Nested(e)))) == TypeText(e)
  {
  }

  /** The text of an identifier kind is the identifier. */
  lemma IdentText(tok: Token, s: string)
    ensures TypeText(Type(tok, Some(Ident(s)))) == s
  {
  }

  /** A multi-return text is parenthesised, and "()" exactly for an empty list or a single
      element whose text is empty. */
  lemma MultiRetShape(ts: seq<Type>)
    ensures |KindText(MultiRet(ts))| >= 2
    ensures KindText(MultiRet(ts))[0] == '('
    ensures KindText(MultiRet(ts))[|KindText(MultiRet(ts))| - 1] == ')'
    ensures KindText(MultiRet(ts)) == "()" <==> ts == [] || (|ts| == 1 && TypeText(ts[0]) == "")
  {
    var ss := Texts(ts);
    if |ts| > 1 {
      JoinLength(ss);
    }
  }

  /** Total length of a list of strings. */
  function SumLen(ss: seq<string>): (n: nat)
    ensures ss != [] ==> n >= |ss[0]|
  {
    if ss == [] then 0 else |ss[0]| + SumLen(ss[1..])
  }

  /** Joining n >= 1 strings adds n - 1 commas to their total length. */
  lemma {:induction false} JoinLength(ss: seq<string>)
    requires |ss| >= 1
    ensures |JoinTexts(ss)| == |ss| - 1 + SumLen(ss)
  {
    if |ss| > 1 {
      JoinLength(ss[1..]);
    }
  }

  /** For n >= 1 types the text is 2 + (n - 1) + the sum of the element text lengths. */
  lemma MultiRetLength(ts: seq<Type>)
    requires |ts| >= 1
    ensures |KindText(MultiRet(ts))| == 2 + (|ts| - 1) + SumLen(Texts(ts))
  {
    JoinLength(Texts(ts));
  }

  /** Number of occurrences of c in s. */
  function Occurrences(s: string, c: char): nat
  {
    if s == [] then 0 else (if s[0] == c then 1 else 0) + Occurrences(s[1..], c)
  }

  lemma {:induction false} OccurrencesConcat(a: string, b: string, c: char)
    ensures Occurrences(a + b, c) == Occurrences(a, c) + Occurrences(b, c)
  {
    if a != [] {
      OccurrencesConcat(a[1..], b, c);
      assert (a + b)[1..] == a[1..] + b;
    } else {
      assert a + b == b;
    }
  }

  /** Joining n >= 1 comma-free strings puts exactly n - 1 commas in the result. */
  lemma {:induction false} JoinCommas(ss: seq<string>)
    requires |ss| >= 1
    requires forall i :: 0 <= i < |ss| ==> ',' !in ss[i]
    ensures Occurrences(JoinTexts(ss), ',') == |ss| - 1
  {
    if |ss| == 1 {
      NoOccurrences(ss[0], ',');
    } else {
      JoinCommas(ss[1..]);
      NoOccurrences(ss[0], ',');
      OccurrencesConcat(ss[0], ",", ',');
      OccurrencesConcat(ss[0] + ",", JoinTexts(ss[1..]), ',');
    }
  }

  lemma {:induction false} NoOccurrences(s: string, c: char)
    requires c !in s
    ensures Occurrences(s, c) == 0
  {
    if s != [] {
      NoOccurrences(s[1..], c);
    }
  }

  /** Splitting a string at every comma: the inverse of JoinTexts on comma-free pieces. */
  function SplitCommas(s: string): (ss: seq<string>)
    ensures |ss| >= 1
  {
    if s == [] then [""]
    else if s[0] == ',' then [""] + SplitCommas(s[1..])
    else var rest := SplitCommas(s[1..]); [[s[0]] + rest[0]] + rest[1..]
  }

  /** A comma-free prefix stays on the first piece. */
  lemma {:induction false} SplitPrefix(a: string, b: string)
    requires ',' !in a
    ensures SplitCommas(a + b) == [a + SplitCommas(b)[0]] + SplitCommas(b)[1..]
  {
    if a != [] {
      assert (a + b)[0] == a[0];
      assert (a + b)[1..] == a[1..] + b;
      SplitPrefix(a[1..], b);
      assert [a[0]] + (a[1..] + SplitCommas(b)[0]) == a + SplitCommas(b)[0];
    } else {
      var r := SplitCommas(b);
      assert a + b == b && a + r[0] == r[0];
      assert r == [r[0]] + r[1..];
    }
  }

  /** Joined comma-free strings split back into the same strings. */
  lemma {:induction false} SplitJoin(ss: seq<string>)
    requires |ss| >= 1
    requires forall i :: 0 <= i < |ss| ==> ',' !in ss[i]
    ensures SplitCommas(JoinTexts(ss)) == ss
  {
    if |ss| == 1 {
      SplitPrefix(ss[0], "");
      assert ss[0] + "" == ss[0];
    } else {
      SplitJoin(ss[1..]);
      var j := JoinTexts(ss[1..]);
      assert JoinTexts(ss) == ss[0] + ("," + j);
      SplitPrefix(ss[0], "," + j);
      assert ("," + j)[0] == ',' && ("," + j)[1..] == j;
      assert SplitCommas("," + j) == [""] + ss[1..];
      assert ss[0] + "" == ss[0];
      assert ss == [ss[0]] + ss[1..];
    }
  }

  /** When no element text contains a comma, the element texts can be read back from a
      multi-return text, and it contains exactly n - 1 commas for n >= 1 elements. */
  lemma MultiRetReadBack(ts: seq<Type>)
    requires |ts| >= 1
    requires forall i :: 0 <= i < |ts| ==> ',' !in TypeText(ts[i])
    ensures var text := KindText(MultiRet(ts));
      SplitCommas(text[1..|text| - 1]) == Texts(ts) && Occurrences(text, ',') == |ts| - 1
  {
    var ss := Texts(ts);
    var j := JoinTexts(ss);
    var text := KindText(MultiRet(ts));
    assert text[1..|text| - 1] == j;
    SplitJoin(ss);
    JoinCommas(ss);
    OccurrencesConcat("(", j, ',');
    OccurrencesConcat("(" + j, ")", ',');
  }

  /** The empty list and a single element with empty text render alike. */
  lemma MultiRetAmbiguity(t: Type)
    requires t.kind.None?
    ensures KindText(MultiRet([])) == KindText(MultiRet([t])) == "()"
  {
  }
}
