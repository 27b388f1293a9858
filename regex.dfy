/** The rule compiler, linker and matcher of the regular-expression engine:
    the `RegularExpressionNode` tree and the `RegularExpression` that owns it. */
module RegEx {
  import opened Errors
  import opened Text

  const StarMisplaced := "'*' operator is not placed after group or token."
  const RequiresLinking := "Expression requires linking"
  const UnhandledRule := "Unhandled regular expression rule"

  /** One compiled fragment of a rule. A node of the source has exactly one
      meaningful variant; `Ref.target` is null until the reference is linked
      (or resolved to the base expression at parse time). */
  datatype Node =
    | Literal(chars: string)
    | Ref(key: string, target: RegularExpression?)
    | Seq(elems: seq<Elem>)
    | Alt(alts: seq<Node>)

  /** A sequence child and its zero-or-more flag. */
  datatype Elem = Elem(node: Node, zeroOrMore: bool)

  /** A named rule and the root of its node tree. */
  class RegularExpression {
    var Key: string
    var BaseNode: Node

    /** The first half of the source's constructor: the key is stored before
        the rule is parsed with the new object as base expression. */
    constructor Empty(key: string)
      ensures Key == key && BaseNode == Seq([])
    {
      Key := key;
      BaseNode := Seq([]);
    }

    /** `new RegularExpression(key, rule)`: stores the key and parses the
        rule with the new expression as base expression, so that identifiers
        equal to `key` refer to the expression itself. A rule that does not
        parse raises the exception, here `Err`; `built` is the object the
        constructor was running on. */
    static method Create(key: string, rule: string) returns (r: Result<RegularExpression>, ghost built: RegularExpression)
      ensures fresh(built) && built.Key == key
      ensures r.Ok? ==> r.value == built && Parse(built, key, rule) == Ok(built.BaseNode)
      ensures r.Err? ==> Parse(built, key, rule) == Err(r.msg)
    {
      var e := new RegularExpression.Empty(key);
      built := e;
      var node := ParseRule(e, key, rule);
      if node.Err? {
        return Err(node.msg), e;
      }
      e.BaseNode := node.value;
      return Ok(e), e;
    }

    /** `Link(linkingFunction)`: links the node tree in place; the key is
        untouched. */
    method Link(f: Linker) returns (s: Status)
      modifies this
      ensures Key == old(Key)
      ensures BaseNode == LinkNode(old(BaseNode), f).value
      ensures s == LinkNode(old(BaseNode), f).status
    {
      var l := LinkNode(BaseNode, f);
      BaseNode := l.value;
      s := l.status;
    }

    /** `Capture(text, start, end)`: the base node's capture. */
    function Capture(text: string, start: int, end: int, fuel: nat): (r: Outcome)
      reads *
      ensures r.Done? ==> r.pos == -1 || (start <= r.pos && (r.pos == start || (r.pos <= end && r.pos <= |text|)))
    {
      Captured(BaseNode, text, start, end, fuel)
    }

    /** `Capture(text)`: a capture over the whole text from its start. */
    function CaptureAll(text: string, fuel: nat): (r: Outcome)
      reads *
      ensures r.Done? ==> -1 <= r.pos <= |text|
    {
      Capture(text, 0, |text|, fuel)
    }
  }

  // ---------------------------------------------------------------------
  // The quote and bracket state machine shared by both passes
  // ---------------------------------------------------------------------

  /** 0 = outside a string, 1 = in a string, 2 = after a backslash,
      3..6 = the four characters after `\u`. */
  type Mode = m: int | 0 <= m <= 6

  function NextMode(m: Mode, c: char): Mode
  {
    if m == 0 then (if c == '"' then 1 else 0)
    else if m == 1 then (if c == '"' then 0 else if c == '\\' then 2 else 1)
    else if m == 2 then (if c == 'u' then 3 else 1)
    else if m == 6 then 1
    else m + 1
  }

  /** The bracket counter moves only outside strings. */
  function DepthStep(m: Mode, depth: int, c: char): int
  {
    if m == 0 && c == '(' then depth + 1
    else if m == 0 && c == ')' then depth - 1
    else depth
  }

  /** The quote state before `rule[i]`. */
  function ModeAt(rule: string, i: nat): Mode
    requires i <= |rule|
  {
    if i == 0 then 0 else NextMode(ModeAt(rule, i - 1), rule[i - 1])
  }

  /** The bracket depth before `rule[i]`. */
  function DepthAt(rule: string, i: nat): int
    requires i <= |rule|
  {
    if i == 0 then 0 else DepthStep(ModeAt(rule, i - 1), DepthAt(rule, i - 1), rule[i - 1])
  }

  /** `rule[i]` is a `|` outside strings at bracket depth 0. */
  predicate IsSplitAt(rule: string, i: nat)
    requires i < |rule|
  {
    rule[i] == '|' && ModeAt(rule, i) == 0 && DepthAt(rule, i) == 0
  }

  // ---------------------------------------------------------------------
  // Pass 1: split on top-level `|`
  // ---------------------------------------------------------------------

  datatype Split1 = Split1(mode: Mode, brackets: int, builder: string, versions: seq<string>, hasAlt: bool)

  function Pass1Step(st: Split1, c: char): Split1
  {
    if st.mode == 0 && c == '|' && st.brackets == 0 then
      Split1(0, 0, "", st.versions + [Trim(st.builder)], true)
    else
      Split1(NextMode(st.mode, c), DepthStep(st.mode, st.brackets, c), st.builder + [c], st.versions, st.hasAlt)
  }

  /** The state of pass 1 after the first `n` characters. Every piece cut so
      far, and the piece being built, is shorter than the rule once a `|`
      has been dropped. */
  function Pass1Upto(rule: string, n: nat): (r: Split1)
    requires n <= |rule|
    ensures forall k :: 0 <= k < |r.versions| ==> |r.versions[k]| < n
    ensures |r.builder| + (if r.hasAlt then 1 else 0) <= n
    ensures r.hasAlt <==> |r.versions| > 0
  {
    if n == 0 then Split1(0, 0, "", [], false)
    else
      var prev := Pass1Upto(rule, n - 1);
      var r := Pass1Step(prev, rule[n - 1]);
      assert forall k :: 0 <= k < |r.versions| ==> |r.versions[k]| < n by {
        forall k | 0 <= k < |r.versions|
          ensures |r.versions[k]| < n
        {
          if k < |prev.versions| {
            assert r.versions[k] == prev.versions[k];
          }
        }
      }
      r
  }

  /** The trimmed alternatives of a rule, in source order. */
  function AltPieces(rule: string): (r: seq<string>)
    ensures Pass1Upto(rule, |rule|).hasAlt ==> forall k :: 0 <= k < |r| ==> |r[k]| < |rule|
  {
    var st := Pass1Upto(rule, |rule|);
    st.versions + [Trim(st.builder)]
  }

  // ---------------------------------------------------------------------
  // Pass 2: split into sequence elements
  // ---------------------------------------------------------------------

  datatype Split2 = Split2(mode: Mode, brackets: int, builder: string, elems: seq<Elem>)

  /** `AddTokenToSequence`: a piece opening with a quote is a literal holding
      everything after the quote; any other piece is a reference, resolved
      at once when it names the base expression. */
  function TokenNode(base: RegularExpression?, key: string, s: string): Node
    requires |s| > 0
  {
    if s[0] == '"' then Literal(s[1..])
    else Ref(s, if s == key then base else null)
  }

  /** Sets the zero-or-more flag of the last element. */
  function MarkLast(elems: seq<Elem>): (r: seq<Elem>)
    requires |elems| > 0
    ensures |r| == |elems| && r[..|r| - 1] == elems[..|elems| - 1]
    ensures r[|r| - 1] == Elem(elems[|elems| - 1].node, true)
  {
    elems[..|elems| - 1] + [elems[|elems| - 1].(zeroOrMore := true)]
  }

  /** One character of pass 2. */
  function Step2(base: RegularExpression?, key: string, rule: string, i: nat, st: Split2): (r: Result<Split2>)
    requires i < |rule| && |st.builder| <= i
    requires st.mode != 0 ==> '"' in st.builder
    ensures r.Ok? ==> |r.value.builder| <= i + 1 && (r.value.mode != 0 ==> '"' in r.value.builder)
    decreases |rule|, 0, 2
  {
    if st.mode == 0 then OutsideStep(base, key, rule, i, st)
    else Ok(QuotedStep(base, key, rule[i], st))
  }

  /** Adds the token `b` to the elements when it is not empty. */
  function AddToken(base: RegularExpression?, key: string, b: string, elems: seq<Elem>): (r: seq<Elem>)
    ensures |b| > 0 ==> r == elems + [Elem(TokenNode(base, key, b), false)]
    ensures |b| == 0 ==> r == elems
  {
    if |b| > 0 then elems + [Elem(TokenNode(base, key, b), false)] else elems
  }

  /** A character outside strings: whitespace and `*` end the token being
      built, `(` and `)` at depth 0 delimit a group, `"` opens a string. */
  function OutsideStep(base: RegularExpression?, key: string, rule: string, i: nat, st: Split2): (r: Result<Split2>)
    requires i < |rule| && |st.builder| <= i && st.mode == 0
    ensures r.Ok? ==> |r.value.builder| <= i + 1 && (r.value.mode != 0 ==> '"' in r.value.builder)
    decreases |rule|, 0, 1
  {
    var c := rule[i];
    if IsWhiteSpace(c) || c == '*' then EndToken(base, key, c, st)
    else if c == '"' then Ok(Split2(1, st.brackets, st.builder + [c], st.elems))
    else if c == '(' then Ok(OpenBracket(base, key, st))
    else if c == ')' then CloseBracket(base, key, rule, i, st)
    else Ok(Split2(0, st.brackets, st.builder + [c], st.elems))
  }

  /** Whitespace or `*` outside strings: the trimmed token built so far is
      added, and `*` marks the last element (an error when there is none). */
  function EndToken(base: RegularExpression?, key: string, c: char, st: Split2): (r: Result<Split2>)
    requires st.mode == 0
    ensures r.Ok? ==> r.value.mode == 0 && |r.value.builder| <= 1
  {
    var elems := AddToken(base, key, Trim(st.builder), st.elems);
    if c == '*' then
      if |elems| == 0 then Err(StarMisplaced)
      else Ok(Split2(0, st.brackets, "", MarkLast(elems)))
    else Ok(Split2(0, st.brackets, [c], elems))
  }

  /** `(` outside strings: at depth 0 it ends the token being built and is
      dropped; deeper it is kept as part of the group's text. */
  function OpenBracket(base: RegularExpression?, key: string, st: Split2): (r: Split2)
    requires st.mode == 0
    ensures r.mode == 0 && |r.builder| <= |st.builder| + 1
  {
    if st.brackets == 0 then
      var b := Trim(st.builder);
      Split2(0, 1, "", if |b| > 0 then AddToken(base, key, Trim(b), st.elems) else st.elems)
    else Split2(0, st.brackets + 1, st.builder + ['('], st.elems)
  }

  /** `)` outside strings: back at depth 0 the text since the matching `(`
      is parsed as a group; deeper it is kept as part of the group's text. */
  function CloseBracket(base: RegularExpression?, key: string, rule: string, i: nat, st: Split2): (r: Result<Split2>)
    requires i < |rule| && |st.builder| <= i && st.mode == 0
    ensures r.Ok? ==> r.value.mode == 0 && |r.value.builder| <= i + 1
    decreases |rule|, 0, 0
  {
    if st.brackets - 1 == 0 then
      var b := Trim(Trim(st.builder));
      assert |b| <= i;
      match Parse(base, key, b)
      case Err(m) => Err(m)
      case Ok(g) => Ok(Split2(0, 0, "", st.elems + [Elem(g, false)]))
    else Ok(Split2(0, st.brackets - 1, st.builder + [')'], st.elems))
  }

  /** A character inside a string: the closing quote adds the literal (or,
      for the escape states, just moves the mode on). */
  function QuotedStep(base: RegularExpression?, key: string, c: char, st: Split2): (r: Split2)
    requires st.mode != 0 && '"' in st.builder
    ensures |r.builder| <= |st.builder| + 1 && (r.mode != 0 ==> '"' in r.builder)
  {
    if st.mode == 1 && c == '"' then
      var b := Trim(st.builder);
      assert |b| > 0 by { TrimKeeps(st.builder); }
      Split2(0, st.brackets, "", st.elems + [Elem(TokenNode(base, key, b), false)])
    else Split2(NextMode(st.mode, c), st.brackets, st.builder + [c], st.elems)
  }

  /** The state of pass 2 after the first `n` characters (or the first error). */
  function Pass2Upto(base: RegularExpression?, key: string, rule: string, n: nat): (r: Result<Split2>)
    requires n <= |rule|
    ensures r.Ok? ==> |r.value.builder| <= n && (r.value.mode != 0 ==> '"' in r.value.builder)
    decreases |rule|, 1, n
  {
    if n == 0 then Ok(Split2(0, 0, "", []))
    else
      match Pass2Upto(base, key, rule, n - 1)
      case Err(m) => Err(m)
      case Ok(st) => Step2(base, key, rule, n - 1, st)
  }

  /** Parses the alternatives `pieces[i..]` after the nodes `acc`, stopping
      at the first one that fails. */
  function ParseAltsAcc(base: RegularExpression?, key: string, pieces: seq<string>, i: nat, acc: seq<Node>, bound: nat): Result<seq<Node>>
    requires i <= |pieces| && forall k :: 0 <= k < |pieces| ==> |pieces[k]| < bound
    decreases bound, 1, |pieces| - i
  {
    if i == |pieces| then Ok(acc)
    else
      match Parse(base, key, pieces[i])
      case Err(m) => Err(m)
      case Ok(n) => ParseAltsAcc(base, key, pieces, i + 1, acc + [n], bound)
  }

  /** The sequence node pass 2 builds: the elements it split off, then the
      trimmed rest of the rule if it is not empty. */
  function SequenceOf(base: RegularExpression?, key: string, rule: string): Result<Node>
    decreases |rule|, 2, 0
  {
    match Pass2Upto(base, key, rule, |rule|)
    case Err(m) => Err(m)
    case Ok(st) =>
      var b := Trim(st.builder);
      Ok(Seq(if |b| > 0 then st.elems + [Elem(TokenNode(base, key, b), false)] else st.elems))
  }

  /** The node tree `new RegularExpressionNode(base, rule)` builds, or the
      message of the exception it throws. `key` stands for `base.Key`,
      which the source reads when an identifier names the base expression.
      Callers pass a non-null base together with its own key, as `Create`
      does; `base` is nullable only so that a tree can be built before its
      owner exists. */
  function Parse(base: RegularExpression?, key: string, rule: string): Result<Node>
    decreases |rule|, 3, 0
  {
    if Pass1Upto(rule, |rule|).hasAlt then
      match ParseAltsAcc(base, key, AltPieces(rule), 0, [], |rule|)
      case Err(m) => Err(m)
      case Ok(ns) => Ok(Alt(ns))
    else SequenceOf(base, key, rule)
  }

  /** An error in pass 2 is the error of the whole pass. */
  lemma {:induction false} Pass2ErrorPersists(base: RegularExpression?, key: string, rule: string, m: nat, n: nat)
    requires m <= n <= |rule| && Pass2Upto(base, key, rule, m).Err?
    ensures Pass2Upto(base, key, rule, n) == Pass2Upto(base, key, rule, m)
    decreases n
  {
    if n > m {
      Pass2ErrorPersists(base, key, rule, m, n - 1);
    }
  }

  /** The `RegularExpressionNode(baseExpression, rule)` constructor: pass 1
      splits on top-level `|`; if it found one, each trimmed piece is parsed
      as an alternative, otherwise pass 2 splits the rule into sequence
      elements. */
  method ParseRule(base: RegularExpression?, key: string, rule: string) returns (r: Result<Node>)
    ensures r == Parse(base, key, rule)
    decreases |rule|, 3
  {
    var versions, hasAlternativeNodes := SplitAlternatives(rule);
    if hasAlternativeNodes {
      var nodes := ParseAlternatives(base, key, versions, |rule|);
      r := match nodes case Err(m) => Err(m) case Ok(ns) => Ok(Alt(ns));
    } else {
      r := BuildSequence(base, key, rule);
    }
  }

  /** Parses each alternative in order into `AlternativeNodes`; the first
      alternative that throws ends the constructor. */
  method ParseAlternatives(base: RegularExpression?, key: string, versions: seq<string>, ghost bound: nat) returns (r: Result<seq<Node>>)
    requires forall p :: p in versions ==> |p| < bound
    ensures r == ParseAltsAcc(base, key, versions, 0, [], bound)
    decreases bound, 0
  {
    var nodes: seq<Node> := [];
    for k := 0 to |versions|
      invariant ParseAltsAcc(base, key, versions, 0, [], bound) == ParseAltsAcc(base, key, versions, k, nodes, bound)
    {
      var alt := ParseRule(base, key, versions[k]);
      if alt.Err? {
        return Err(alt.msg);
      }
      nodes := nodes + [alt.value];
    }
    return Ok(nodes);
  }

  /** The first loop of the constructor: the trimmed pieces between
      top-level `|` characters, the last one included when there was a `|`. */
  method SplitAlternatives(rule: string) returns (versions: seq<string>, hasAlternativeNodes: bool)
    ensures hasAlternativeNodes == Pass1Upto(rule, |rule|).hasAlt
    ensures hasAlternativeNodes ==> versions == AltPieces(rule)
  {
    versions := [];
    hasAlternativeNodes := false;
    var mode: Mode := 0;
    var brackets := 0;
    var versionBuilder := "";
    for i := 0 to |rule|
      invariant Pass1Upto(rule, i) == Split1(mode, brackets, versionBuilder, versions, hasAlternativeNodes)
    {
      var c := rule[i];
      var addChar := true;
      if mode == 0 {
        if c == '"' {
          mode := 1;
        } else if c == '|' && brackets == 0 {
          addChar := false;
          versions := versions + [Trim(versionBuilder)];
          versionBuilder := "";
          hasAlternativeNodes := true;
        } else if c == '(' {
          brackets := brackets + 1;
        } else if c == ')' {
          brackets := brackets - 1;
        }
      } else if mode == 1 {
        if c == '"' {
          mode := 0;
        } else if c == '\\' {
          mode := 2;
        }
      } else if mode == 2 {
        mode := if c == 'u' then 3 else 1;
      } else {
        mode := if mode == 6 then 1 else mode + 1;
      }
      if addChar {
        versionBuilder := versionBuilder + [c];
      }
    }
    if hasAlternativeNodes {
      versions := versions + [Trim(versionBuilder)];
    }
  }

  /** The second loop of the constructor: splits the rule into sequence
      elements, parsing each top-level group recursively. */
  method BuildSequence(base: RegularExpression?, key: string, rule: string) returns (r: Result<Node>)
    ensures r == SequenceOf(base, key, rule)
    decreases |rule|, 2
  {
    var st := Split2(0, 0, "", []);
    for i := 0 to |rule|
      invariant Pass2Upto(base, key, rule, i) == Ok(st)
    {
      var next := SequenceChar(base, key, rule, i, st);
      if next.Err? {
        Pass2ErrorPersists(base, key, rule, i + 1, |rule|);
        return Err(next.msg);
      }
      st := next.value;
    }
    var nodeBuilder := Trim(st.builder);
    var sequence := st.elems;
    if |nodeBuilder| > 0 {
      sequence := sequence + [Elem(TokenNode(base, key, nodeBuilder), false)];
    }
    return Ok(Seq(sequence));
  }

  /** The body of the second loop for the character `rule[i]`: the quote
      state, the bracket counter, the piece being built and the elements so
      far, or the exception the character raises. */
  method SequenceChar(base: RegularExpression?, key: string, rule: string, i: nat, st: Split2) returns (r: Result<Split2>)
    requires i < |rule| && |st.builder| <= i
    requires st.mode != 0 ==> '"' in st.builder
    ensures r == Step2(base, key, rule, i, st)
    decreases |rule|, 1
  {
    var c := rule[i];
    if st.mode == 0 {
      r := OutsideStringChar(base, key, rule, i, st);
    } else if st.mode == 1 && c == '"' {
      assert |Trim(st.builder)| > 0 by { TrimKeeps(st.builder); }
      var node := TokenNode(base, key, Trim(st.builder));
      r := Ok(Split2(0, st.brackets, "", st.elems + [Elem(node, false)]));
    } else {
      var mode := st.mode;
      if mode == 1 {
        if c == '\\' {
          mode := 2;
        }
      } else if mode == 2 {
        mode := if c == 'u' then 3 else 1;
      } else {
        mode := if mode == 6 then 1 else mode + 1;
      }
      r := Ok(Split2(mode, st.brackets, st.builder + [c], st.elems));
    }
  }

  /** `SequenceChar` outside strings: whitespace and `*` end the piece being
      built, `*` marks the last element, `(` and `)` at depth 0 delimit a
      group, `"` opens a string. */
  method OutsideStringChar(base: RegularExpression?, key: string, rule: string, i: nat, st: Split2) returns (r: Result<Split2>)
    requires i < |rule| && |st.builder| <= i && st.mode == 0
    ensures r == OutsideStep(base, key, rule, i, st)
    decreases |rule|, 0
  {
    var c := rule[i];
    var brackets, nodeBuilder, sequence := st.brackets, st.builder, st.elems;
    if IsWhiteSpace(c) || c == '*' {
      nodeBuilder := Trim(nodeBuilder);
      if |nodeBuilder| > 0 {
        sequence := sequence + [Elem(TokenNode(base, key, nodeBuilder), false)];
        nodeBuilder := "";
      }
      if c == '*' {
        if |sequence| == 0 {
          return Err(StarMisplaced);
        }
        return Ok(Split2(0, brackets, nodeBuilder, MarkLast(sequence)));
      }
      assert nodeBuilder + [c] == [c];
      return Ok(Split2(0, brackets, nodeBuilder + [c], sequence));
    } else if c == '"' {
      return Ok(Split2(1, brackets, nodeBuilder + [c], sequence));
    } else if c == '(' {
      if brackets == 0 {
        TrimIdempotent(nodeBuilder);
        nodeBuilder := Trim(nodeBuilder);
        if |nodeBuilder| > 0 {
          sequence := sequence + [Elem(TokenNode(base, key, Trim(nodeBuilder)), false)];
          nodeBuilder := "";
        }
        return Ok(Split2(0, 1, nodeBuilder, sequence));
      }
      return Ok(Split2(0, brackets + 1, nodeBuilder + [c], sequence));
    } else if c == ')' {
      brackets := brackets - 1;
      if brackets == 0 {
        nodeBuilder := Trim(nodeBuilder);
        var group := ParseRule(base, key, Trim(nodeBuilder));
        if group.Err? {
          return Err(group.msg);
        }
        return Ok(Split2(0, 0, "", sequence + [Elem(group.value, false)]));
      }
      return Ok(Split2(0, brackets, nodeBuilder + [c], sequence));
    }
    return Ok(Split2(0, brackets, nodeBuilder + [c], sequence));
  }

  /** Erases every reference target: the shape of a tree. */
  function Erase(n: Node): Node
    decreases n, 1
  {
    match n
    case Literal(s) => n
    case Ref(k, _) => Ref(k, null)
    case Seq(elems) => Seq(EraseElems(elems))
    case Alt(alts) => Alt(EraseAlts(alts))
  }

  function EraseElems(elems: seq<Elem>): (r: seq<Elem>)
    ensures |r| == |elems|
    decreases elems, 0
  {
    if elems == [] then [] else [EraseElem(elems[0])] + EraseElems(elems[1..])
  }

  function EraseElem(e: Elem): Elem
    decreases e, 2
  {
    Elem(Erase(e.node), e.zeroOrMore)
  }

  function EraseAlts(alts: seq<Node>): (r: seq<Node>)
    ensures |r| == |alts|
    decreases alts, 0
  {
    if alts == [] then [] else [Erase(alts[0])] + EraseAlts(alts[1..])
  }

  // ---------------------------------------------------------------------
  // Linking
  // ---------------------------------------------------------------------

  /** A linked tree (or part of one) and whether linking finished. */
  datatype Linked<T> = Linked(value: T, status: Status)

  /** The lookup a linker is given: the expression for a key, or the message
      of the exception the lookup throws. */
  type Linker = string -> Result<RegularExpression?>

  /** `RegularExpressionNode.Link`: alternatives in order, then sequence
      children in order, then the node's own reference, which is set to the
      lookup's result. The first lookup that throws ends the walk; the
      references already set stay set. */
  function LinkNode(n: Node, f: Linker): (r: Linked<Node>)
    decreases n, 1
  {
    match n
    case Literal(_) => Linked(n, Pass)
    case Ref(k, _) =>
      (match f(k)
       case Ok(t) => Linked(Ref(k, t), Pass)
       case Err(m) => Linked(n, Fail(m)))
    case Seq(elems) =>
      var l := LinkElems(elems, f);
      Linked(Seq(l.value), l.status)
    case Alt(alts) =>
      var l := LinkAlts(alts, f);
      Linked(Alt(l.value), l.status)
  }

  function LinkElems(elems: seq<Elem>, f: Linker): (r: Linked<seq<Elem>>)
    ensures |r.value| == |elems|
    decreases elems, 0
  {
    if elems == [] then Linked([], Pass)
    else
      var h := LinkElem(elems[0], f);
      if h.status.Fail? then Linked([h.value] + elems[1..], h.status)
      else
        var t := LinkElems(elems[1..], f);
        Linked([h.value] + t.value, t.status)
  }

  function LinkElem(e: Elem, f: Linker): Linked<Elem>
    decreases e, 2
  {
    var l := LinkNode(e.node, f);
    Linked(Elem(l.value, e.zeroOrMore), l.status)
  }

  function LinkAlts(alts: seq<Node>, f: Linker): (r: Linked<seq<Node>>)
    ensures |r.value| == |alts|
    decreases alts, 0
  {
    if alts == [] then Linked([], Pass)
    else
      var h := LinkNode(alts[0], f);
      if h.status.Fail? then Linked([h.value] + alts[1..], h.status)
      else
        var t := LinkAlts(alts[1..], f);
        Linked([h.value] + t.value, t.status)
  }

  // ---------------------------------------------------------------------
  // Capturing
  // ---------------------------------------------------------------------

  const IndexOutOfRange := "Index was outside the bounds of the array."

  /** What a capture call does: returns a position (-1 for no match),
      throws, or does not finish within the given recursion fuel. */
  datatype Outcome = Done(pos: int) | Fault(msg: string) | OutOfFuel

  /** A position a capture from `start` may return: -1 or an advanced one. */
  predicate Reached(p: int, text: string, start: int, end: int)
  {
    p == -1 || Advanced(p, text, start, end)
  }

  /** `start` itself, or a position after it within both `end` and the text. */
  predicate Advanced(p: int, text: string, start: int, end: int)
  {
    start <= p && (p == start || (p <= end && p <= |text|))
  }

  /** `StringMatches`: false when either span runs past its text; otherwise
      whether the spans are equal, the first character access throwing when
      a start is negative. */
  function Matches(text1: string, start1: int, text2: string, start2: int, length: int): Result<bool>
  {
    if start1 + length > |text1| || start2 + length > |text2| then Ok(false)
    else if length > 0 && (start1 < 0 || start2 < 0) then Err(IndexOutOfRange)
    else Ok(length <= 0 || text1[start1..start1 + length] == text2[start2..start2 + length])
  }

  /** A literal node: matches the next `|s|` characters, if they are before
      `end`. */
  function LiteralCapture(s: string, text: string, start: int, end: int): (r: Outcome)
    ensures r.Done? ==> Reached(r.pos, text, start, end)
  {
    if start + |s| > end then Done(-1)
    else
      match Matches(text, start, s, 0, |s|)
      case Err(m) => Fault(m)
      case Ok(b) => if b then Done(start + |s|) else Done(-1)
  }

  /** `RegularExpressionNode.Capture(text, start, end)` with `fuel` bounding
      the depth of nested calls and the number of repetitions. */
  function Captured(n: Node, text: string, start: int, end: int, fuel: nat): (r: Outcome)
    reads *
    ensures fuel == 0 ==> r == OutOfFuel
    ensures r.Done? ==> Reached(r.pos, text, start, end)
    decreases fuel, 0, 0
  {
    if fuel == 0 then OutOfFuel
    else
      match n
      case Literal(s) => LiteralCapture(s, text, start, end)
      case Ref(_, t) =>
        if t == null then Fault(RequiresLinking) else Captured(t.BaseNode, text, start, end, fuel - 1)
      case Alt(alts) =>
        if |alts| > 0 then CapturedAlts(alts, text, start, end, fuel - 1, 0) else Fault(UnhandledRule)
      case Seq(elems) =>
        if |elems| > 0 then CapturedSeq(elems, text, start, end, fuel - 1, 0) else Fault(UnhandledRule)
  }

  /** The first result among `alts[i..]` that is not -1, or -1. */
  function CapturedAlts(alts: seq<Node>, text: string, start: int, end: int, fuel: nat, i: nat): (r: Outcome)
    requires i <= |alts|
    reads *
    ensures r.Done? ==> Reached(r.pos, text, start, end)
    decreases fuel, 1, |alts| - i
  {
    if i == |alts| then Done(-1)
    else
      var c := Captured(alts[i], text, start, end, fuel);
      if c == Done(-1) then CapturedAlts(alts, text, start, end, fuel, i + 1) else c
  }

  /** The sequence loop from `elems[i]` on at position `pos`. */
  function CapturedSeq(elems: seq<Elem>, text: string, pos: int, end: int, fuel: nat, i: nat): (r: Outcome)
    requires i <= |elems|
    reads *
    ensures r.Done? ==> Reached(r.pos, text, pos, end)
    decreases fuel, 1, |elems| - i
  {
    if i == |elems| then Done(pos)
    else
      var e := elems[i];
      match Captured(e.node, text, pos, end, fuel)
      case Done(p) =>
        if p == -1 then
          if e.zeroOrMore then CapturedSeq(elems, text, pos, end, fuel, i + 1) else Done(-1)
        else if e.zeroOrMore then
          (match Repeated(e.node, text, p, end, fuel)
           case Done(q) => CapturedSeq(elems, text, q, end, fuel, i + 1)
           case other => other)
        else CapturedSeq(elems, text, p, end, fuel, i + 1)
      case other => other
  }

  /** The greedy `while (cap != -1)` loop of a starred element that has
      matched up to `pos`: the last position before the element fails. */
  function Repeated(node: Node, text: string, pos: int, end: int, fuel: nat): (r: Outcome)
    reads *
    ensures r.Done? ==> Advanced(r.pos, text, pos, end)
    decreases fuel, 1, 0
  {
    if fuel == 0 then OutOfFuel
    else
      match Captured(node, text, pos, end, fuel)
      case Done(p) => if p == -1 then Done(pos) else Repeated(node, text, p, end, fuel - 1)
      case other => other
  }

  /** `StringMatches(text1, start1, text2, start2, length)`. */
  method StringMatches(text1: string, start1: int, text2: string, start2: int, length: int) returns (r: Result<bool>)
    ensures r == Matches(text1, start1, text2, start2, length)
  {
    if start1 + length > |text1| || start2 + length > |text2| {
      return Ok(false);
    }
    var i := 0;
    while i < length
      invariant 0 <= i && (i == 0 || i <= length)
      invariant start1 + length <= |text1| && start2 + length <= |text2|
      invariant i > 0 ==> start1 >= 0 && start2 >= 0 && text1[start1..start1 + i] == text2[start2..start2 + i]
    {
      if start1 + i < 0 || start2 + i < 0 {
        return Err(IndexOutOfRange);
      }
      if text1[start1 + i] != text2[start2 + i] {
        assert text1[start1..start1 + length][i] != text2[start2..start2 + length][i];
        return Ok(false);
      }
      assert text1[start1..start1 + i + 1] == text1[start1..start1 + i] + [text1[start1 + i]];
      assert text2[start2..start2 + i + 1] == text2[start2..start2 + i] + [text2[start2 + i]];
      i := i + 1;
    }
    return Ok(true);
  }

  /** `RegularExpressionNode.Capture(text, start, end)`. */
  method CaptureNode(n: Node, text: string, start: int, end: int, fuel: nat) returns (r: Outcome)
    ensures r == Captured(n, text, start, end, fuel)
    decreases fuel, 1
  {
    if fuel == 0 {
      return OutOfFuel;
    }
    match n
    case Literal(s) =>
      if start + |s| > end {
        return Done(-1);
      }
      var m := StringMatches(text, start, s, 0, |s|);
      if m.Err? {
        return Fault(m.msg);
      }
      return if m.value then Done(start + |s|) else Done(-1);
    case Ref(_, t) =>
      if t == null {
        return Fault(RequiresLinking);
      }
      r := CaptureNode(t.BaseNode, text, start, end, fuel - 1);
    case Alt(alts) =>
      if |alts| == 0 {
        return Fault(UnhandledRule);
      }
      r := CaptureAlternatives(alts, text, start, end, fuel - 1);
    case Seq(elems) =>
      if |elems| == 0 {
        return Fault(UnhandledRule);
      }
      r := CaptureSequence(elems, text, start, end, fuel - 1);
  }

  /** The `foreach` over `AlternativeNodes`: the first capture that is not
      -1 is returned. */
  method CaptureAlternatives(alts: seq<Node>, text: string, start: int, end: int, fuel: nat) returns (r: Outcome)
    ensures r == CapturedAlts(alts, text, start, end, fuel, 0)
    decreases fuel, 2
  {
    for k := 0 to |alts|
      invariant CapturedAlts(alts, text, start, end, fuel, 0) == CapturedAlts(alts, text, start, end, fuel, k)
    {
      var cap := CaptureNode(alts[k], text, start, end, fuel);
      if cap != Done(-1) {
        return cap;
      }
    }
    return Done(-1);
  }

  /** The `foreach` over `Sequence`, advancing `startPoint`. */
  method CaptureSequence(elems: seq<Elem>, text: string, start: int, end: int, fuel: nat) returns (r: Outcome)
    ensures r == CapturedSeq(elems, text, start, end, fuel, 0)
    decreases fuel, 3
  {
    var startPoint := start;
    for k := 0 to |elems|
      invariant CapturedSeq(elems, text, start, end, fuel, 0) == CapturedSeq(elems, text, startPoint, end, fuel, k)
    {
      var node := elems[k];
      var cap := CaptureNode(node.node, text, startPoint, end, fuel);
      if !cap.Done? {
        return cap;
      }
      if cap.pos == -1 {
        if !node.zeroOrMore {
          return Done(-1);
        }
      } else if node.zeroOrMore {
        var last := RepeatCapture(node.node, text, cap.pos, end, fuel);
        if !last.Done? {
          return last;
        }
        startPoint := last.pos;
      } else {
        startPoint := cap.pos;
      }
    }
    return Done(startPoint);
  }

  /** The `while (cap != -1)` loop of a starred element that has matched up
      to `from`. */
  method RepeatCapture(node: Node, text: string, from: int, end: int, fuel: nat) returns (r: Outcome)
    requires from != -1
    ensures r == Repeated(node, text, from, end, fuel)
    decreases fuel, 2
  {
    var startPoint, cap, f: nat := from, Done(from), fuel;
    while cap.pos != -1
      invariant cap.Done? && f <= fuel
      invariant cap.pos != -1 ==> Repeated(node, text, from, end, fuel) == Repeated(node, text, cap.pos, end, f)
      invariant cap.pos == -1 ==> Repeated(node, text, from, end, fuel) == Done(startPoint)
      decreases f, if cap.pos == -1 then 0 else 1
    {
      startPoint := cap.pos;
      if f == 0 {
        return OutOfFuel;
      }
      cap := CaptureNode(node, text, startPoint, end, f);
      if !cap.Done? {
        return cap;
      }
      if cap.pos != -1 {
        f := f - 1;
      }
    }
    return Done(startPoint);
  }
}
