/** The `LexicalToken` and `LexicalScanToken` value structs: a named, coded
    token with its matching expression, and a token as it was scanned. */
module LexicalTokens {
  import opened Errors
  import opened RegEx

  const NullReference := "Object reference not set to an instance of an object."

  /** A C# `short`. */
  type Short = x: int | -0x8000 <= x < 0x8000

  /** A token: its key, the expression that matches it (`null` for a token
      that cannot be scanned), its code, and whether the text it matched is
      discarded (`GenericCapture`, true) or kept (false). */
  datatype LexicalToken = LexicalToken(Key: string, Expression: RegularExpression?, Code: Short, GenericCapture: bool)

  /** `new LexicalToken(key, expression)`: code 0, scanned text discarded. */
  function FromExpression(key: string, expression: RegularExpression?): (t: LexicalToken)
    ensures t.Key == key && t.Expression == expression
    ensures t.Code == 0 && t.GenericCapture
  {
    LexicalToken(key, expression, 0, true)
  }

  /** `new LexicalToken(key, expression, code)`: scanned text discarded. */
  function FromExpressionCode(key: string, expression: RegularExpression?, code: Short): (t: LexicalToken)
    ensures t.Key == key && t.Expression == expression
    ensures t.Code == code && t.GenericCapture
  {
    LexicalToken(key, expression, code, true)
  }

  /** `new LexicalToken(expression, code)`: the key is the expression's own
      key; a null expression throws when its key is read. */
  function FromKeyedExpression(expression: RegularExpression?, code: Short): (r: Result<LexicalToken>)
    reads expression
    ensures r.Ok? <==> expression != null
    ensures r.Ok? ==> r.value.Key == expression.Key && r.value.Expression == expression
    ensures r.Ok? ==> r.value.Code == code && r.value.GenericCapture
    ensures r.Err? ==> r.msg == NullReference
  {
    if expression == null then Err(NullReference)
    else Ok(FromExpressionCode(expression.Key, expression, code))
  }

  /** `LexicalToken.CreateEmpty(key, code)`: a token with no expression, so
      one that cannot be scanned. */
  function CreateEmpty(key: string, code: Short): (t: LexicalToken)
    ensures t.Key == key && t.Code == code && t.Expression == null && t.GenericCapture
  {
    FromExpressionCode(key, null, code)
  }

  /** `new LexicalToken(key, rule)` and `new LexicalToken(key, rule, code)`:
      the rule is compiled into a fresh expression under the token's own key,
      so that the rule may refer to the token itself; a rule that does not
      parse throws. */
  method FromRule(key: string, rule: string, code: Short) returns (r: Result<LexicalToken>)
    ensures r.Ok? ==> r.value.Key == key && r.value.Code == code && r.value.GenericCapture
    ensures r.Ok? ==> r.value.Expression != null && fresh(r.value.Expression)
    ensures r.Ok? ==> r.value.Expression.Key == key && Parse(r.value.Expression, key, rule) == Ok(r.value.Expression.BaseNode)
    ensures r.Err? ==> exists e: RegularExpression :: Parse(e, key, rule) == Err(r.msg)
  {
    var expression, built := RegularExpression.Create(key, rule);
    if expression.Err? {
      return Err(expression.msg);
    }
    r := Ok(FromExpressionCode(key, expression.value, code));
  }

  /** The scanned string of a `LexicalScanToken`: `None` is the source's
      `null`, meaning the text was not kept. */
  datatype LexicalScanToken = LexicalScanToken(Token: LexicalToken, ScannedString: Option<string>)
  {
    /** `Key`: the key of the token that was scanned. */
    function Key(): (k: string)
      ensures k == Token.Key
    {
      Token.Key
    }
  }

  /** `new LexicalScanToken(token, scannedString)`. */
  function NewScanToken(token: LexicalToken, scannedString: Option<string>): (s: LexicalScanToken)
    ensures s.Token == token && s.ScannedString == scannedString
    ensures s.Key() == token.Key
  {
    LexicalScanToken(token, scannedString)
  }
}
