/** The six scan operators and their parser (src/ComparisonType.cpp). */
module ComparisonType {
  import opened Common

  datatype ComparisonType = Equal | NotEqual | Greater | Less | GreaterEqual | LessEqual

  /** The keyword that names each operator on the command line. */
  function Keyword(op: ComparisonType): string {
    match op
    case Equal => "=="
    case NotEqual => "!="
    case Greater => ">"
    case Less => "<"
    case GreaterEqual => ">="
    case LessEqual => "<="
  }

  function ParseComparisonType(keywordStr: string): (r: Result<ComparisonType>)
    ensures r.Err? ==> r.exc == Exc(InvalidArgument, "Invalid scan type.")
  {
    if keywordStr == "==" then Ok(Equal)
    else if keywordStr == "!=" then Ok(NotEqual)
    else if keywordStr == ">" then Ok(Greater)
    else if keywordStr == "<" then Ok(Less)
    else if keywordStr == ">=" then Ok(GreaterEqual)
    else if keywordStr == "<=" then Ok(LessEqual)
    else Err(Exc(InvalidArgument, "Invalid scan type."))
  }

  /** Every operator's keyword parses back to that operator. */
  lemma ParseKeyword(op: ComparisonType)
    ensures ParseComparisonType(Keyword(op)) == Ok(op)
  {
  }

  /** Matching is on the whole string: only the six keywords are accepted, each
      yields the operator it names, so distinct keywords give distinct operators. */
  lemma ParseOnlyKeywords(s: string)
    ensures ParseComparisonType(s).Ok? ==> Keyword(ParseComparisonType(s).value) == s
    ensures ParseComparisonType(s).Ok? <==> s in {"==", "!=", ">", "<", ">=", "<="}
  {
  }

  lemma ParseIsInjective(s: string, t: string)
    requires ParseComparisonType(s).Ok? && ParseComparisonType(t).Ok?
    requires ParseComparisonType(s) == ParseComparisonType(t)
    ensures s == t
  {
    ParseOnlyKeywords(s);
    ParseOnlyKeywords(t);
  }
}
