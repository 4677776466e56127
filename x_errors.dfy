/** The compiler's table of error message templates, keyed by error name. */
module X {

  /** `Errors`: every error name with its message template. The entries are listed from
      the last line of the table to the first; the names are distinct, so the order of the
      display does not change the map. */
  const Errors: map<string, string> := map[
    "rune_overflow"                  := "rune is should be single",
    "rune_empty"                     := "rune is cannot empty",
    "void_for_autotype"              := "void data is cannot use for auto-type definations",
    "null_for_autotype"              := "null is cannot use with auto-type definations",
    "missing_const_value"            := "constants must have value specification",
    "missing_string_end"             := "string is not finished",
    "missing_return"                 := "missing return at end of function",
    "missing_rune_end"               := "rune is not finished",
    "missing_semicolon"              := "missing statement terminator at end of statement",
    "missing_block_comment"          := "missing block comment close",
    "missing_argument"               := "missing argument(s)",
    "missing_value"                  := "value is not given",
    "missing_type"                   := "data type missing",
    "missing_autotype_value"         := "auto-type declarations should have a initializer",
    "invalid_type_source"            := "invalid data type source for type alias",
    "invalid_const_data_type"        := "invalid data type for constant",
    "invalid_escape_sequence"        := "invalid escape sequence",
    "invalid_data_amper"             := "invalid data type for amper operator",
    "invalid_data_star"              := "invalid data type for star operator",
    "invalid_data_logical_not"       := "invalid data type for logical not operator",
    "invalid_data_tilde"             := "invalid data type for tilde operator",
    "invalid_data_plus"              := "invalid data type for plus operator",
    "invalid_operator"               := "invalid operator",
    "invalid_data_unary"             := "invalid data type for unary operator",
    "invalid_numeric_range"          := "arithmetic value overflow",
    "invalid_attribute"              := "invalid attribute for type",
    "invalid_type"                   := "invalid data type",
    "type_not_support_value_update"  := "type is not support value update",
    "const_value_update"             := "value is cannot update of constants",
    "logical_not_bool"               := "logical expression is have only boolean type values",
    "bitshift_must_unsigned"         := "bit shifting value is must be unsigned",
    "void_function_return_value"     := "void functions is cannot returns any value",
    "require_return_value"           := "return statements of non-void functions should have return value",
    "entrypoint_have_parameters"     := "entry point is cannot have parameter(s)",
    "entrypoint_have_return"         := "entry point is cannot have return type",
    "argument_overflow"              := "argument overflow",
    "parameter_exist"                := "parameter is already exist in this name",
    "not_function_call"              := "value is not function",
    "name_not_defined"               := "name is not defined",
    "operator_notfor_pointer"        := "this operator is not defined for pointer type",
    "operator_notfor_uint"           := "this operator is not defined for unsigned integer type(s)",
    "operator_notfor_int"            := "this operator is not defined for integer type(s)",
    "operator_notfor_float"          := "this operator is not defined for float type(s)",
    "operator_notfor_any"            := "this operator is not defined for any type",
    "operator_notfor_bool"           := "this operator is not defined for boolean type",
    "operator_notfor_null"           := "this operator is not defined for null type",
    "operator_notfor_rune"           := "this operator is not defined for rune type",
    "operator_notfor_string"         := "this operator is not defined for string type",
    "incompatible_datatype"          := "data type are not compatible",
    "operator_overflow"              := "operator overflow",
    "incompatible_type"              := "incompatible value type",
    "function_body_not_exist"        := "function body is not declared",
    "brace_not_closed"               := "brace is opened but not closed",
    "exist_name"                     := "name is already exist",
    "no_entry_point"                 := "entry point (main) function is not defined",
    "invalid_syntax"                 := "invalid syntax",
    "invalid_token"                  := "undefined code content",
    "file_not_x"                     := "this is not x source file: "
  ]

  /** A lookup in the table: Go yields the zero value, the empty string, for an unknown
      name. */
  function ErrorText(key: string): (msg: string)
    ensures key !in Errors ==> msg == ""
    ensures key in Errors ==> msg == Errors[key]
  {
    if key in Errors then Errors[key] else ""
  }

  /** The names of the "operator not defined for" errors, one per kind of operand. */
  const OperatorNotFor: set<string> := {
    "operator_notfor_string", "operator_notfor_rune", "operator_notfor_null",
    "operator_notfor_bool", "operator_notfor_any", "operator_notfor_float",
    "operator_notfor_int", "operator_notfor_uint", "operator_notfor_pointer"
  }

  /** The phrase every "operator not defined for" template begins with. */
  const OperatorPhrase: string := "this operator is not defined for "

  /** A template that begins with the phrase and names a kind of operand after it. */
  predicate OperatorTemplate(t: string)
  {
    |t| > |OperatorPhrase| && t[..|OperatorPhrase|] == OperatorPhrase
  }

  // One lookup per lemma: each "operator not defined for" entry on its own.
  lemma OperatorNotForString()
    ensures "operator_notfor_string" in Errors && OperatorTemplate(ErrorText("operator_notfor_string"))
  {
  }

  lemma OperatorNotForRune()
    ensures "operator_notfor_rune" in Errors && OperatorTemplate(ErrorText("operator_notfor_rune"))
  {
  }

  lemma OperatorNotForNull()
    ensures "operator_notfor_null" in Errors && OperatorTemplate(ErrorText("operator_notfor_null"))
  {
  }

  lemma OperatorNotForBool()
    ensures "operator_notfor_bool" in Errors && OperatorTemplate(ErrorText("operator_notfor_bool"))
  {
  }

  lemma OperatorNotForAny()
    ensures "operator_notfor_any" in Errors && OperatorTemplate(ErrorText("operator_notfor_any"))
  {
  }

  lemma OperatorNotForFloat()
    ensures "operator_notfor_float" in Errors && OperatorTemplate(ErrorText("operator_notfor_float"))
  {
  }

  lemma OperatorNotForInt()
    ensures "operator_notfor_int" in Errors && OperatorTemplate(ErrorText("operator_notfor_int"))
  {
  }

  lemma OperatorNotForUint()
    ensures "operator_notfor_uint" in Errors && OperatorTemplate(ErrorText("operator_notfor_uint"))
  {
  }

  lemma OperatorNotForPointer()
    ensures "operator_notfor_pointer" in Errors && OperatorTemplate(ErrorText("operator_notfor_pointer"))
  {
  }

  /** Every "operator not defined for" name is in the table, and its template is the same
      phrase completed by the kind of operand. */
  lemma OperatorNotForPrefix(key: string)
    requires key in OperatorNotFor
    ensures key in Errors && OperatorTemplate(ErrorText(key))
  {
    if key == "operator_notfor_string" {
      OperatorNotForString();
    } else if key == "operator_notfor_rune" {
      OperatorNotForRune();
    } else if key == "operator_notfor_null" {
      OperatorNotForNull();
    } else if key == "operator_notfor_bool" {
      OperatorNotForBool();
    } else if key == "operator_notfor_any" {
      OperatorNotForAny();
    } else if key == "operator_notfor_float" {
      OperatorNotForFloat();
    } else if key == "operator_notfor_int" {
      OperatorNotForInt();
    } else if key == "operator_notfor_uint" {
      OperatorNotForUint();
    } else {
      OperatorNotForPointer();
    }
  }

  /** The template for an undefined name. */
  lemma NameNotDefined()
    ensures "name_not_defined" in Errors
    ensures ErrorText("name_not_defined") == "name is not defined"
  {
  }

  /** The template for a program without an entry point. */
  lemma NoEntryPoint()
    ensures "no_entry_point" in Errors
    ensures ErrorText("no_entry_point") == "entry point (main) function is not defined"
  {
  }

  /** The template for an entry point with a return type. */
  lemma EntryPointReturn()
    ensures "entrypoint_have_return" in Errors
    ensures ErrorText("entrypoint_have_return") == "entry point is cannot have return type"
  {
  }

  /** The template for an entry point with parameters. */
  lemma EntryPointParameters()
    ensures "entrypoint_have_parameters" in Errors
    ensures ErrorText("entrypoint_have_parameters") == "entry point is cannot have parameter(s)"
  {
  }

  /** The file error ends in ": ", ready for the file name to be appended. */
  lemma FileNotXSuffix()
    ensures "file_not_x" in Errors
    ensures var t := ErrorText("file_not_x");
      |t| >= 2 && t[|t| - 2..] == ": "
  {
  }
}
