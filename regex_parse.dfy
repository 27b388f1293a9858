/** What the rule compiler builds: where a rule splits into alternatives,
    what a quoted string, an identifier and `*` become, and how the
    sequence pass treats brackets. */
module RegExParse {
  import opened Errors
  import opened Text
  import opened RegEx

  // ---------------------------------------------------------------------
  // Pass 1: the alternatives
  // ---------------------------------------------------------------------

  /** Where the piece being cut after the first `n` characters starts: just
      after the last top-level `|` before `n`, or at 0. */
  function Start(rule: string, n: nat): (s: nat)
    requires n <= |rule|
    ensures s <= n
  {
    if n == 0 then 0 else if IsSplitAt(rule, n - 1) then n else Start(rule, n - 1)
  }

  /** The pieces completed among the first `n` characters, as start and end
      positions: every top-level `|` ends one. */
  function Cuts(rule: string, n: nat): (r: seq<(nat, nat)>)
    requires n <= |rule|
    ensures forall j :: 0 <= j < |r| ==> r[j].0 <= r[j].1 < n
  {
    if n == 0 then []
    else if IsSplitAt(rule, n - 1) then Cuts(rule, n - 1) + [(Start(rule, n - 1), n - 1)]
    else Cuts(rule, n - 1)
  }

  /** Every cut ends at a top-level `|`. */
  lemma {:induction false} CutsAtSplits(rule: string, n: nat)
    requires n <= |rule|
    ensures forall j :: 0 <= j < |Cuts(rule, n)| ==> IsSplitAt(rule, Cuts(rule, n)[j].1)
  {
    if n > 0 {
      CutsAtSplits(rule, n - 1);
      var cs0, cs := Cuts(rule, n - 1), Cuts(rule, n);
      if IsSplitAt(rule, n - 1) {
        assert cs == cs0 + [(Start(rule, n - 1), n - 1)];
        forall j | 0 <= j < |cs|
          ensures IsSplitAt(rule, cs[j].1)
        {
          if j < |cs0| {
            assert cs[j] == cs0[j];
          }
        }
      } else {
        assert cs == cs0;
      }
    }
  }

  /** Every top-level `|` ends a cut: the `j`-th. */
  lemma {:induction false} SplitIsCut(rule: string, n: nat, i: nat) returns (j: nat)
    requires i < n <= |rule| && IsSplitAt(rule, i)
    ensures j < |Cuts(rule, n)| && Cuts(rule, n)[j].1 == i
  {
    var cs0 := Cuts(rule, n - 1);
    if i == n - 1 {
      j := |cs0|;
      assert Cuts(rule, n) == cs0 + [(Start(rule, n - 1), n - 1)];
    } else {
      j := SplitIsCut(rule, n - 1, i);
      assert Cuts(rule, n)[j] == cs0[j] by {
        if IsSplitAt(rule, n - 1) {
          assert Cuts(rule, n) == cs0 + [(Start(rule, n - 1), n - 1)];
        }
      }
    }
  }

  /** The cuts are contiguous: the first starts at 0, each next one just
      after the `|` ending the previous one, and the piece being built
      just after the last one. */
  lemma {:induction false} CutsContiguous(rule: string, n: nat)
    requires n <= |rule|
    ensures |Cuts(rule, n)| > 0 ==> Cuts(rule, n)[0].0 == 0
    ensures forall j, k :: 0 <= j && k == j + 1 && k < |Cuts(rule, n)| ==> Cuts(rule, n)[k].0 == Cuts(rule, n)[j].1 + 1
    ensures Start(rule, n) == if |Cuts(rule, n)| == 0 then 0 else Cuts(rule, n)[|Cuts(rule, n)| - 1].1 + 1
  {
    if n > 0 {
      CutsContiguous(rule, n - 1);
      var cs0, cs := Cuts(rule, n - 1), Cuts(rule, n);
      if IsSplitAt(rule, n - 1) {
        assert cs == cs0 + [(Start(rule, n - 1), n - 1)];
        forall j, k | 0 <= j && k == j + 1 && k < |cs|
          ensures cs[k].0 == cs[j].1 + 1
        {
          if k < |cs0| {
            assert cs[k] == cs0[k] && cs[j] == cs0[j];
          }
        }
      } else {
        assert cs == cs0;
      }
    }
  }

  /** Pass 1 follows the rule's quote and bracket state machine. */
  lemma {:induction false} Pass1Track(rule: string, n: nat)
    requires n <= |rule|
    ensures Pass1Upto(rule, n).mode == ModeAt(rule, n) && Pass1Upto(rule, n).brackets == DepthAt(rule, n)
  {
    if n > 0 {
      Pass1Track(rule, n - 1);
    }
  }

  /** The trimmed text of each cut. */
  predicate TrimmedCuts(rule: string, versions: seq<string>, cs: seq<(nat, nat)>)
  {
    && |versions| == |cs|
    && forall j :: 0 <= j < |cs| ==> cs[j].0 <= cs[j].1 <= |rule| && versions[j] == Trim(rule[cs[j].0..cs[j].1])
  }

  /** One more cut adds its trimmed text. */
  lemma PiecesSnoc(rule: string, versions: seq<string>, cs: seq<(nat, nat)>, vs: seq<string>, cs': seq<(nat, nat)>, s: nat, p: nat)
    requires TrimmedCuts(rule, versions, cs) && s <= p <= |rule|
    requires vs == versions + [Trim(rule[s..p])] && cs' == cs + [(s, p)]
    ensures TrimmedCuts(rule, vs, cs')
  {
    forall j | 0 <= j < |cs'|
      ensures cs'[j].0 <= cs'[j].1 <= |rule| && vs[j] == Trim(rule[cs'[j].0..cs'[j].1])
    {
      if j < |cs| {
        assert cs'[j] == cs[j] && vs[j] == versions[j];
      }
    }
  }

  /** One character of pass 1: a top-level `|` cuts the piece being built,
      any other character is added to it. */
  lemma Pass1Next(rule: string, n: nat)
    requires 0 < n <= |rule|
    ensures IsSplitAt(rule, n - 1) ==> Pass1Upto(rule, n) == Split1(0, 0, "", Pass1Upto(rule, n - 1).versions + [Trim(Pass1Upto(rule, n - 1).builder)], true)
    ensures !IsSplitAt(rule, n - 1) ==> Pass1Upto(rule, n).versions == Pass1Upto(rule, n - 1).versions
    ensures !IsSplitAt(rule, n - 1) ==> Pass1Upto(rule, n).builder == Pass1Upto(rule, n - 1).builder + [rule[n - 1]]
  {
    Pass1Track(rule, n - 1);
    assert Pass1Upto(rule, n) == Pass1Step(Pass1Upto(rule, n - 1), rule[n - 1]);
  }

  /** Pass 1 after `n` characters is building the text since the last
      top-level `|`. */
  lemma {:induction false} Pass1Builder(rule: string, n: nat)
    requires n <= |rule|
    ensures Pass1Upto(rule, n).builder == rule[Start(rule, n)..n]
  {
    if n > 0 {
      Pass1Builder(rule, n - 1);
      Pass1Next(rule, n);
      if !IsSplitAt(rule, n - 1) {
        var s := Start(rule, n - 1);
        assert rule[s..n] == rule[s..n - 1] + [rule[n - 1]];
      }
    }
  }

  /** A top-level `|` cuts the text since the previous one. */
  lemma Pass1Cut(rule: string, n: nat)
    requires 0 < n <= |rule| && IsSplitAt(rule, n - 1)
    ensures Pass1Upto(rule, n).versions == Pass1Upto(rule, n - 1).versions + [Trim(rule[Start(rule, n - 1)..n - 1])]
  {
    Pass1Next(rule, n);
    Pass1Builder(rule, n - 1);
  }

  /** A top-level `|` adds the trimmed text of the piece it ends. */
  lemma Pass1PiecesCut(rule: string, n: nat)
    requires 0 < n <= |rule| && IsSplitAt(rule, n - 1)
    requires TrimmedCuts(rule, Pass1Upto(rule, n - 1).versions, Cuts(rule, n - 1))
    ensures TrimmedCuts(rule, Pass1Upto(rule, n).versions, Cuts(rule, n))
  {
    Pass1Cut(rule, n);
    PiecesSnoc(rule, Pass1Upto(rule, n - 1).versions, Cuts(rule, n - 1), Pass1Upto(rule, n).versions, Cuts(rule, n), Start(rule, n - 1), n - 1);
  }

  /** Pass 1 after `n` characters has cut the trimmed text of each cut. */
  lemma {:induction false} Pass1Pieces(rule: string, n: nat)
    requires n <= |rule|
    ensures TrimmedCuts(rule, Pass1Upto(rule, n).versions, Cuts(rule, n))
  {
    if n > 0 {
      Pass1Pieces(rule, n - 1);
      if IsSplitAt(rule, n - 1) {
        Pass1PiecesCut(rule, n);
      } else {
        Pass1Next(rule, n);
        assert Cuts(rule, n) == Cuts(rule, n - 1);
      }
    }
  }

  /** The pieces pass 1 hands on: the trimmed text of each cut, then the
      trimmed text after the last top-level `|`. */
  lemma AltPiecesAre(rule: string)
    ensures |AltPieces(rule)| == |Cuts(rule, |rule|)| + 1
    ensures TrimmedCuts(rule, AltPieces(rule)[..|Cuts(rule, |rule|)|], Cuts(rule, |rule|))
    ensures AltPieces(rule)[|Cuts(rule, |rule|)|] == Trim(rule[Start(rule, |rule|)..])
  {
    Pass1Pieces(rule, |rule|);
    Pass1Builder(rule, |rule|);
    var st := Pass1Upto(rule, |rule|);
    assert AltPieces(rule)[..|Cuts(rule, |rule|)|] == st.versions;
    assert rule[Start(rule, |rule|)..] == rule[Start(rule, |rule|)..|rule|];
  }

  /** Pass 1 finds an alternative exactly when the rule has a top-level `|`. */
  lemma HasAltIff(rule: string)
    ensures Pass1Upto(rule, |rule|).hasAlt <==> exists i :: 0 <= i < |rule| && IsSplitAt(rule, i)
  {
    Pass1Pieces(rule, |rule|);
    CutsAtSplits(rule, |rule|);
    var cs := Cuts(rule, |rule|);
    if |cs| > 0 {
      assert IsSplitAt(rule, cs[0].1);
    }
    if i :| 0 <= i < |rule| && IsSplitAt(rule, i) {
      var j := SplitIsCut(rule, |rule|, i);
    }
  }

  /** A rule without any `|` is never split. */
  lemma NoBarNoAlt(rule: string)
    requires forall i :: 0 <= i < |rule| ==> rule[i] != '|'
    ensures !Pass1Upto(rule, |rule|).hasAlt
  {
    HasAltIff(rule);
  }

  /** One piece of `ParseAltsAcc`: a piece that fails stops it, one that
      compiles is added to the nodes. */
  lemma ParseAltsAccStep(base: RegularExpression?, key: string, pieces: seq<string>, i: nat, acc: seq<Node>, bound: nat)
    requires i < |pieces| && forall k :: 0 <= k < |pieces| ==> |pieces[k]| < bound
    ensures Parse(base, key, pieces[i]).Err? ==> ParseAltsAcc(base, key, pieces, i, acc, bound) == Err(Parse(base, key, pieces[i]).msg)
    ensures Parse(base, key, pieces[i]).Ok? ==>
      ParseAltsAcc(base, key, pieces, i, acc, bound) == ParseAltsAcc(base, key, pieces, i + 1, acc + [Parse(base, key, pieces[i]).value], bound)
  {
  }

  /** `ParseAltsAcc` keeps the nodes `acc` and adds one node per piece from
      `i` on. */
  lemma {:induction false} ParseAltsAccLength(base: RegularExpression?, key: string, pieces: seq<string>, i: nat, acc: seq<Node>, bound: nat)
    requires i <= |pieces| && forall k :: 0 <= k < |pieces| ==> |pieces[k]| < bound
    requires ParseAltsAcc(base, key, pieces, i, acc, bound).Ok?
    ensures |ParseAltsAcc(base, key, pieces, i, acc, bound).value| == |acc| + |pieces| - i
    ensures ParseAltsAcc(base, key, pieces, i, acc, bound).value[..|acc|] == acc
    decreases |pieces| - i
  {
    if i < |pieces| {
      var p := Parse(base, key, pieces[i]);
      var acc' := acc + [p.value];
      ParseAltsAccLength(base, key, pieces, i + 1, acc', bound);
      var ns := ParseAltsAcc(base, key, pieces, i + 1, acc', bound).value;
      assert ns[..|acc'|][..|acc|] == ns[..|acc|];
    }
  }

  /** The node `ParseAltsAcc` puts right after `acc` is piece `i` compiled. */
  lemma ParseAltsAccHead(base: RegularExpression?, key: string, pieces: seq<string>, i: nat, acc: seq<Node>, bound: nat)
    requires i < |pieces| && |acc| == i && forall k :: 0 <= k < |pieces| ==> |pieces[k]| < bound
    requires ParseAltsAcc(base, key, pieces, i, acc, bound).Ok?
    ensures i < |ParseAltsAcc(base, key, pieces, i, acc, bound).value|
    ensures Parse(base, key, pieces[i]) == Ok(ParseAltsAcc(base, key, pieces, i, acc, bound).value[i])
  {
    ParseAltsAccStep(base, key, pieces, i, acc, bound);
    var p := Parse(base, key, pieces[i]);
    var acc' := acc + [p.value];
    ParseAltsAccLength(base, key, pieces, i + 1, acc', bound);
    var ns := ParseAltsAcc(base, key, pieces, i + 1, acc', bound).value;
    assert ns[..|acc'|][i] == ns[i];
  }

  /** The accumulated nodes after one more piece of a `ParseAltsAcc` that
      succeeds. */
  lemma ParseAltsAccNext(base: RegularExpression?, key: string, pieces: seq<string>, i: nat, acc: seq<Node>, bound: nat) returns (acc': seq<Node>)
    requires i < |pieces| && forall k :: 0 <= k < |pieces| ==> |pieces[k]| < bound
    requires ParseAltsAcc(base, key, pieces, i, acc, bound).Ok?
    ensures |acc'| == |acc| + 1
    ensures ParseAltsAcc(base, key, pieces, i, acc, bound) == ParseAltsAcc(base, key, pieces, i + 1, acc', bound)
  {
    ParseAltsAccStep(base, key, pieces, i, acc, bound);
    acc' := acc + [Parse(base, key, pieces[i]).value];
  }

  /** Started from `i` with one node per earlier piece, the node
      `ParseAltsAcc` puts for piece `j` is that piece compiled. */
  lemma {:induction false} ParseAltsAccAt(base: RegularExpression?, key: string, pieces: seq<string>, i: nat, acc: seq<Node>, bound: nat, j: nat)
    requires i <= j < |pieces| && |acc| == i && forall k :: 0 <= k < |pieces| ==> |pieces[k]| < bound
    requires ParseAltsAcc(base, key, pieces, i, acc, bound).Ok?
    ensures j < |ParseAltsAcc(base, key, pieces, i, acc, bound).value|
    ensures Parse(base, key, pieces[j]) == Ok(ParseAltsAcc(base, key, pieces, i, acc, bound).value[j])
    decreases |pieces| - i
  {
    if j == i {
      ParseAltsAccHead(base, key, pieces, i, acc, bound);
    } else {
      var acc' := ParseAltsAccNext(base, key, pieces, i, acc, bound);
      ParseAltsAccAt(base, key, pieces, i + 1, acc', bound, j);
    }
  }

  /** `ParseAltsAcc` fails when any piece from `i` on fails. */
  lemma {:induction false} ParseAltsAccFails(base: RegularExpression?, key: string, pieces: seq<string>, i: nat, acc: seq<Node>, bound: nat, j: nat)
    requires i <= j < |pieces| && forall k :: 0 <= k < |pieces| ==> |pieces[k]| < bound
    requires Parse(base, key, pieces[j]).Err?
    ensures ParseAltsAcc(base, key, pieces, i, acc, bound).Err?
    decreases |pieces| - i
  {
    var p := Parse(base, key, pieces[i]);
    ParseAltsAccStep(base, key, pieces, i, acc, bound);
    if j > i && p.Ok? {
      ParseAltsAccFails(base, key, pieces, i + 1, acc + [p.value], bound, j);
    }
  }

  /** `ParseAltsAcc` succeeds when every piece from `i` on compiles. */
  lemma {:induction false} ParseAltsAccSucceeds(base: RegularExpression?, key: string, pieces: seq<string>, i: nat, acc: seq<Node>, bound: nat)
    requires i <= |pieces| && forall k :: 0 <= k < |pieces| ==> |pieces[k]| < bound
    requires forall j :: i <= j < |pieces| ==> Parse(base, key, pieces[j]).Ok?
    ensures ParseAltsAcc(base, key, pieces, i, acc, bound).Ok?
    decreases |pieces| - i
  {
    if i < |pieces| {
      var p := Parse(base, key, pieces[i]);
      ParseAltsAccSucceeds(base, key, pieces, i + 1, acc + [p.value], bound);
    }
  }

  /** A rule with a top-level `|` compiles exactly when each of its pieces
      does. */
  lemma AlternationCompiles(base: RegularExpression?, key: string, rule: string)
    requires exists i :: 0 <= i < |rule| && IsSplitAt(rule, i)
    ensures Parse(base, key, rule).Ok? <==> forall j :: 0 <= j < |AltPieces(rule)| ==> Parse(base, key, AltPieces(rule)[j]).Ok?
  {
    HasAltIff(rule);
    var pieces := AltPieces(rule);
    if forall j :: 0 <= j < |pieces| ==> Parse(base, key, pieces[j]).Ok? {
      ParseAltsAccSucceeds(base, key, pieces, 0, [], |rule|);
    } else {
      var j :| 0 <= j < |pieces| && Parse(base, key, pieces[j]).Err?;
      ParseAltsAccFails(base, key, pieces, 0, [], |rule|, j);
    }
  }

  /** A rule with a top-level `|` compiles to an alternation of its pieces,
      each compiled, in source order. */
  lemma Alternation(base: RegularExpression?, key: string, rule: string)
    requires exists i :: 0 <= i < |rule| && IsSplitAt(rule, i)
    requires Parse(base, key, rule).Ok?
    ensures Parse(base, key, rule).value.Alt? && |Parse(base, key, rule).value.alts| == |AltPieces(rule)|
    ensures forall j :: 0 <= j < |AltPieces(rule)| ==> Parse(base, key, AltPieces(rule)[j]) == Ok(Parse(base, key, rule).value.alts[j])
  {
    HasAltIff(rule);
    var pieces := AltPieces(rule);
    var r := ParseAltsAcc(base, key, pieces, 0, [], |rule|);
    assert r.Ok? && Parse(base, key, rule) == Ok(Alt(r.value));
    ParseAltsAccLength(base, key, pieces, 0, [], |rule|);
    forall j | 0 <= j < |pieces|
      ensures Parse(base, key, pieces[j]) == Ok(r.value[j])
    {
      ParseAltsAccAt(base, key, pieces, 0, [], |rule|, j);
    }
  }

  /** A rule without a top-level `|` compiles to a sequence. */
  lemma Sequence(base: RegularExpression?, key: string, rule: string)
    requires forall i :: 0 <= i < |rule| ==> !IsSplitAt(rule, i)
    ensures Parse(base, key, rule).Ok? ==> Parse(base, key, rule).value.Seq?
  {
    HasAltIff(rule);
  }

  // ---------------------------------------------------------------------
  // Pass 2: literals, identifiers and `*`
  // ---------------------------------------------------------------------

  /** Proof helper for the pass-2 lemmas below: one more character of pass
      2 is one `Step2`, and the builder so far is no longer than the prefix
      read. It states no property of the compiler by itself. */
  lemma Pass2Next(base: RegularExpression?, key: string, rule: string, n: nat, st: Split2)
    requires n < |rule| && Pass2Upto(base, key, rule, n) == Ok(st)
    ensures |st.builder| <= n && (st.mode != 0 ==> '"' in st.builder)
    ensures Pass2Upto(base, key, rule, n + 1) == Step2(base, key, rule, n, st)
  {
  }

  /** Trimming a quote followed by `s` keeps the quote and trims the end of
      `s`. */
  lemma {:induction false} TrimQuoted(s: string)
    ensures Trim("\"" + s) == "\"" + TrimEnd(s)
    decreases |s|
  {
    var q := "\"" + s;
    assert TrimStart(q) == q;
    if |s| > 0 && IsWhiteSpace(s[|s| - 1]) {
      TrimQuoted(s[..|s| - 1]);
      assert q[..|q| - 1] == "\"" + s[..|s| - 1];
      assert TrimEnd(q) == TrimEnd(q[..|q| - 1]);
      assert TrimEnd(s[..|s| - 1]) == TrimEnd(s);
      assert Trim(q[..|q| - 1]) == TrimEnd(q[..|q| - 1]) by {
        assert TrimStart(q[..|q| - 1]) == q[..|q| - 1];
      }
    }
  }

  /** Pass 2 inside a string opened by the rule's first character: it only
      collects characters, following the quote state machine. */
  lemma {:induction false} Pass2InString(base: RegularExpression?, key: string, rule: string, k: nat)
    requires 1 <= k <= |rule| && rule[0] == '"'
    requires forall m :: 1 <= m <= k ==> ModeAt(rule, m) != 0
    ensures Pass2Upto(base, key, rule, k) == Ok(Split2(ModeAt(rule, k), 0, rule[..k], []))
    decreases k
  {
    if k == 1 {
      var st := Split2(0, 0, "", []);
      Pass2Next(base, key, rule, 0, st);
      assert OutsideStep(base, key, rule, 0, st).value.builder == [rule[0]];
      assert OutsideStep(base, key, rule, 0, st) == Ok(Split2(1, 0, [rule[0]], []));
      assert rule[..1] == [rule[0]];
    } else {
      Pass2InString(base, key, rule, k - 1);
      var st := Split2(ModeAt(rule, k - 1), 0, rule[..k - 1], []);
      Pass2Next(base, key, rule, k - 1, st);
      var c := rule[k - 1];
      assert ModeAt(rule, k) == NextMode(st.mode, c);
      assert !(st.mode == 1 && c == '"');
      assert rule[..k] == rule[..k - 1] + [c];
    }
  }

  /** A quoted string becomes a literal holding everything between the
      quotes, escapes left as written and trailing whitespace trimmed. The
      requires say that the closing quote is the first one the quote state
      machine does not treat as escaped. */
  lemma LiteralRule(base: RegularExpression?, key: string, s: string)
    requires forall m :: 1 <= m <= |s| + 1 ==> ModeAt("\"" + s + "\"", m) != 0
    requires ModeAt("\"" + s + "\"", |s| + 1) == 1
    ensures Parse(base, key, "\"" + s + "\"") == Ok(Seq([Elem(Literal(TrimEnd(s)), false)]))
  {
    var rule := "\"" + s + "\"";
    var n := |s| + 1;
    Pass2InString(base, key, rule, n);
    assert rule[..n] == "\"" + s;
    TrimQuoted(s);
    var st := Split2(1, 0, rule[..n], []);
    Pass2Next(base, key, rule, n, st);
    var lit := Elem(Literal(TrimEnd(s)), false);
    assert ("\"" + TrimEnd(s))[1..] == TrimEnd(s);
    assert QuotedStep(base, key, rule[n], st) == Split2(0, 0, "", [lit]);
    assert Pass2Upto(base, key, rule, |rule|) == Ok(Split2(0, 0, "", [lit]));
    assert Trim("") == "";
    assert SequenceOf(base, key, rule) == Ok(Seq([lit]));
    HasAltIff(rule);
    forall i | 0 <= i < |rule|
      ensures !IsSplitAt(rule, i)
    {
      if 0 < i < n {
        assert ModeAt(rule, i) != 0;
      }
    }
  }

  /** A string left open to the end of the rule is not an error: the
      trailing token is a literal holding everything after the quote, with
      trailing whitespace trimmed. */
  lemma UnterminatedLiteral(base: RegularExpression?, key: string, s: string)
    requires forall m :: 1 <= m <= |s| + 1 ==> ModeAt("\"" + s, m) != 0
    ensures Parse(base, key, "\"" + s) == Ok(Seq([Elem(Literal(TrimEnd(s)), false)]))
  {
    var rule := "\"" + s;
    Pass2InString(base, key, rule, |rule|);
    assert rule[..|rule|] == rule;
    TrimQuoted(s);
    assert ("\"" + TrimEnd(s))[1..] == TrimEnd(s);
    assert [] + [Elem(Literal(TrimEnd(s)), false)] == [Elem(Literal(TrimEnd(s)), false)];
    HasAltIff(rule);
    forall i | 0 <= i < |rule|
      ensures !IsSplitAt(rule, i)
    {
      if 0 < i {
        assert ModeAt(rule, i) != 0;
      }
    }
  }

  /** Characters a bare identifier is made of. */
  predicate IdentChar(c: char)
  {
    !IsWhiteSpace(c) && c != '"' && c != '(' && c != ')' && c != '*' && c != '|'
  }

  /** Pass 2 over identifier characters only collects them. */
  lemma {:induction false} Pass2Ident(base: RegularExpression?, key: string, rule: string, n: nat)
    requires n <= |rule| && forall i :: 0 <= i < n ==> IdentChar(rule[i])
    ensures Pass2Upto(base, key, rule, n) == Ok(Split2(0, 0, rule[..n], []))
    ensures ModeAt(rule, n) == 0 && DepthAt(rule, n) == 0
    decreases n
  {
    if n > 0 {
      Pass2Ident(base, key, rule, n - 1);
      var st := Split2(0, 0, rule[..n - 1], []);
      Pass2Next(base, key, rule, n - 1, st);
      var c := rule[n - 1];
      assert IdentChar(c);
      assert OutsideStep(base, key, rule, n - 1, st) == Ok(Split2(0, 0, rule[..n - 1] + [c], []));
      assert rule[..n] == rule[..n - 1] + [c];
    }
  }

  /** An identifier with no whitespace at either end trims to itself. */
  lemma TrimIdent(s: string)
    requires |s| > 0 && IdentChar(s[0]) && IdentChar(s[|s| - 1])
    ensures Trim(s) == s
  {
    assert TrimStart(s) == s;
  }

  /** A bare identifier becomes a reference to that key, resolved at once
      to the base expression when it is the base expression's own key. */
  lemma IdentifierRule(base: RegularExpression?, key: string, s: string)
    requires |s| > 0 && forall i :: 0 <= i < |s| ==> IdentChar(s[i])
    ensures Parse(base, key, s) == Ok(Seq([Elem(Ref(s, if s == key then base else null), false)]))
  {
    Pass2Ident(base, key, s, |s|);
    assert s[..|s|] == s;
    TrimIdent(s);
    var e := Elem(TokenNode(base, key, s), false);
    assert [] + [e] == [e];
    assert SequenceOf(base, key, s) == Ok(Seq([e]));
    NoBarNoAlt(s);
  }

  /** `*` after an identifier sets the zero-or-more flag on its reference. */
  lemma StarredIdentifier(base: RegularExpression?, key: string, s: string)
    requires |s| > 0 && forall i :: 0 <= i < |s| ==> IdentChar(s[i])
    ensures Parse(base, key, s + "*") == Ok(Seq([Elem(Ref(s, if s == key then base else null), true)]))
  {
    var rule := s + "*";
    Pass2Ident(base, key, rule, |s|);
    assert rule[..|s|] == s;
    TrimIdent(s);
    var st := Split2(0, 0, s, []);
    Pass2Next(base, key, rule, |s|, st);
    var e := Elem(Ref(s, if s == key then base else null), true);
    assert EndToken(base, key, '*', st) == Ok(Split2(0, 0, "", [e]));
    assert Pass2Upto(base, key, rule, |rule|) == Ok(Split2(0, 0, "", [e]));
    assert Trim("") == "";
    assert SequenceOf(base, key, rule) == Ok(Seq([e]));
    NoBarNoAlt(rule);
  }

  /** Pass 2 before any element, having seen only whitespace since the
      start or since the opening bracket: nothing is collected yet. */
  predicate Blank(st: Split2, depth: nat)
  {
    st.mode == 0 && st.brackets == depth && st.elems == []
    && |st.builder| <= 1 && (|st.builder| == 1 ==> IsWhiteSpace(st.builder[0]))
  }

  /** Whitespace keeps a blank pass-2 state blank. */
  lemma {:induction false} Pass2Blank(base: RegularExpression?, key: string, rule: string, m: nat, n: nat, depth: nat)
    requires m <= n <= |rule| && Pass2Upto(base, key, rule, m).Ok? && Blank(Pass2Upto(base, key, rule, m).value, depth)
    requires forall i :: m <= i < n ==> IsWhiteSpace(rule[i])
    ensures Pass2Upto(base, key, rule, n).Ok? && Blank(Pass2Upto(base, key, rule, n).value, depth)
    decreases n - m
  {
    if n > m {
      Pass2Blank(base, key, rule, m, n - 1, depth);
      var st := Pass2Upto(base, key, rule, n - 1).value;
      Pass2Next(base, key, rule, n - 1, st);
      TrimWhiteSpace(st.builder);
      assert EndToken(base, key, rule[n - 1], st) == Ok(Split2(0, depth, [rule[n - 1]], []));
    }
  }

  /** A `*` reached in a blank state throws, and so does the whole rule. */
  lemma StarInBlank(base: RegularExpression?, key: string, rule: string, n: nat, depth: nat)
    requires n < |rule| && rule[n] == '*'
    requires Pass2Upto(base, key, rule, n).Ok? && Blank(Pass2Upto(base, key, rule, n).value, depth)
    requires forall i :: 0 <= i < |rule| ==> !IsSplitAt(rule, i)
    ensures Parse(base, key, rule) == Err(StarMisplaced)
  {
    HasAltIff(rule);
    var st := Pass2Upto(base, key, rule, n).value;
    Pass2Next(base, key, rule, n, st);
    TrimWhiteSpace(st.builder);
    assert EndToken(base, key, '*', st) == Err(StarMisplaced);
    Pass2ErrorPersists(base, key, rule, n + 1, |rule|);
    assert SequenceOf(base, key, rule) == Err(StarMisplaced);
  }

  /** A rule that is not split into alternatives and whose first character
      other than whitespace is a `*` throws "'*' operator is not placed
      after group or token.". */
  lemma StarFirst(base: RegularExpression?, key: string, rule: string, n: nat)
    requires n < |rule| && rule[n] == '*' && forall i :: 0 <= i < n ==> IsWhiteSpace(rule[i])
    requires forall i :: 0 <= i < |rule| ==> !IsSplitAt(rule, i)
    ensures Parse(base, key, rule) == Err(StarMisplaced)
  {
    assert Blank(Pass2Upto(base, key, rule, 0).value, 0);
    Pass2Blank(base, key, rule, 0, n, 0);
    StarInBlank(base, key, rule, n, 0);
  }

  /** The same holds at the head of the outermost group: a rule that is not
      split into alternatives and starts, whitespace aside, with `(` and
      then `*` throws the same exception. */
  lemma StarFirstInGroup(base: RegularExpression?, key: string, rule: string, k: nat, n: nat)
    requires k < n < |rule| && rule[k] == '(' && rule[n] == '*'
    requires forall i :: 0 <= i < n && i != k ==> IsWhiteSpace(rule[i])
    requires forall i :: 0 <= i < |rule| ==> !IsSplitAt(rule, i)
    ensures Parse(base, key, rule) == Err(StarMisplaced)
  {
    assert Blank(Pass2Upto(base, key, rule, 0).value, 0);
    Pass2Blank(base, key, rule, 0, k, 0);
    var st := Pass2Upto(base, key, rule, k).value;
    Pass2Next(base, key, rule, k, st);
    TrimWhiteSpace(st.builder);
    assert OutsideStep(base, key, rule, k, st) == Ok(Split2(0, 1, "", []));
    Pass2Blank(base, key, rule, k + 1, n, 1);
    StarInBlank(base, key, rule, n, 1);
  }

  /** A `*` after a completed element, outside strings and brackets, sets
      the zero-or-more flag of that element and of no other. */
  lemma StarMarksLast(base: RegularExpression?, key: string, rule: string, st: Split2)
    requires |rule| > 0 && rule[|rule| - 1] == '*'
    requires forall i :: 0 <= i < |rule| ==> !IsSplitAt(rule, i)
    requires Pass2Upto(base, key, rule, |rule| - 1) == Ok(st)
    requires st.mode == 0 && st.brackets == 0 && Trim(st.builder) == "" && |st.elems| > 0
    ensures Parse(base, key, rule) == Ok(Seq(MarkLast(st.elems)))
  {
    HasAltIff(rule);
    Pass2Next(base, key, rule, |rule| - 1, st);
    assert EndToken(base, key, '*', st) == Ok(Split2(0, 0, "", MarkLast(st.elems)));
    assert Trim("") == "";
  }

  /** `"x"*` after its first three characters: the literal `x` closed. */
  lemma StarredLiteralClose(base: RegularExpression?, key: string, x: char)
    requires IdentChar(x) && x != '\\'
    ensures Pass2Upto(base, key, ['"', x, '"', '*'], 3) == Ok(Split2(0, 0, "", [Elem(Literal([x]), false)]))
  {
    var rule := ['"', x, '"', '*'];
    var s0 := Split2(0, 0, "", []);
    var s1 := Split2(1, 0, ['"'], []);
    var s2 := Split2(NextMode(1, x), 0, ['"', x], []);
    Pass2Next(base, key, rule, 0, s0);
    assert s0.builder + [rule[0]] == s1.builder;
    assert OutsideStep(base, key, rule, 0, s0) == Ok(s1);
    Pass2Next(base, key, rule, 1, s1);
    assert s1.builder + [rule[1]] == s2.builder;
    Pass2Next(base, key, rule, 2, s2);
    assert Trim(['"', x]) == ['"', x] by {
      assert TrimStart(['"', x]) == ['"', x];
    }
    assert ['"', x][1..] == [x];
    assert NextMode(1, x) == 1;
    assert TokenNode(base, key, ['"', x]) == Literal([x]);
    assert s2.elems + [Elem(Literal([x]), false)] == [Elem(Literal([x]), false)];
    assert Step2(base, key, rule, 2, s2) == Ok(Split2(0, 0, "", [Elem(Literal([x]), false)]));
  }

  /** `"x"*`: the flag lands on the literal. */
  lemma StarredLiteral(base: RegularExpression?, key: string, x: char)
    requires IdentChar(x) && x != '\\'
    ensures Parse(base, key, ['"', x, '"', '*']) == Ok(Seq([Elem(Literal([x]), true)]))
  {
    var rule := ['"', x, '"', '*'];
    StarredLiteralClose(base, key, x);
    assert Trim("") == "";
    assert !IsSplitAt(rule, 0) && !IsSplitAt(rule, 1) && !IsSplitAt(rule, 2) && !IsSplitAt(rule, 3);
    StarMarksLast(base, key, rule, Split2(0, 0, "", [Elem(Literal([x]), false)]));
  }

  /** `(y)*` after its first two characters: a group opened, `y` collected. */
  lemma StarredGroupOpen(base: RegularExpression?, key: string, y: char)
    requires IdentChar(y)
    ensures Pass2Upto(base, key, ['(', y, ')', '*'], 2) == Ok(Split2(0, 1, [y], []))
  {
    var rule := ['(', y, ')', '*'];
    var s0 := Split2(0, 0, "", []);
    var s1 := Split2(0, 1, "", []);
    Pass2Next(base, key, rule, 0, s0);
    assert Trim("") == "";
    assert OutsideStep(base, key, rule, 0, s0) == Ok(s1);
    Pass2Next(base, key, rule, 1, s1);
    assert s1.builder + [rule[1]] == [y];
    assert OutsideStep(base, key, rule, 1, s1) == Ok(Split2(0, 1, [y], []));
  }

  /** `(y)*` after its first three characters: the group `y` closed. */
  lemma StarredGroupClose(base: RegularExpression?, key: string, y: char)
    requires IdentChar(y)
    ensures Pass2Upto(base, key, ['(', y, ')', '*'], 3) == Ok(Split2(0, 0, "", [Elem(Seq([Elem(TokenNode(base, key, [y]), false)]), false)]))
  {
    var rule := ['(', y, ')', '*'];
    var g := Seq([Elem(TokenNode(base, key, [y]), false)]);
    var s2 := Split2(0, 1, [y], []);
    StarredGroupOpen(base, key, y);
    Pass2Close(base, key, rule, 2, s2);
    TrimIdent([y]);
    IdentifierRule(base, key, [y]);
    assert [Elem(g, false)] == s2.elems + [Elem(g, false)];
  }

  /** `(y)*`: the flag lands on the group. */
  lemma StarredGroup(base: RegularExpression?, key: string, y: char)
    requires IdentChar(y)
    ensures Parse(base, key, ['(', y, ')', '*']) == Ok(Seq([Elem(Seq([Elem(TokenNode(base, key, [y]), false)]), true)]))
  {
    var rule := ['(', y, ')', '*'];
    var g := Seq([Elem(TokenNode(base, key, [y]), false)]);
    StarredGroupClose(base, key, y);
    assert Trim("") == "";
    assert !IsSplitAt(rule, 0) && !IsSplitAt(rule, 1) && !IsSplitAt(rule, 2) && !IsSplitAt(rule, 3);
    StarMarksLast(base, key, rule, Split2(0, 0, "", [Elem(g, false)]));
  }

  // ---------------------------------------------------------------------
  // Brackets in pass 2
  // ---------------------------------------------------------------------

  /** A rule without `|` that pass 2 consumes entirely compiles to the
      sequence of the elements pass 2 split off. */
  lemma WholeSequence(base: RegularExpression?, key: string, rule: string, st: Split2)
    requires forall i :: 0 <= i < |rule| ==> rule[i] != '|'
    requires Pass2Upto(base, key, rule, |rule|) == Ok(st) && st.builder == ""
    ensures Parse(base, key, rule) == Ok(Seq(st.elems))
  {
    NoBarNoAlt(rule);
    assert Trim(st.builder) == "";
  }

  /** `(x y)` after its first two characters: a group opened, `x` collected. */
  lemma SpaceInGroupOpen(base: RegularExpression?, key: string, x: char, y: char)
    requires IdentChar(x)
    ensures Pass2Upto(base, key, ['(', x, ' ', y, ')'], 2) == Ok(Split2(0, 1, [x], []))
  {
    var rule := ['(', x, ' ', y, ')'];
    var s0 := Split2(0, 0, "", []);
    var s1 := Split2(0, 1, "", []);
    Pass2Next(base, key, rule, 0, s0);
    assert Trim("") == "";
    assert OutsideStep(base, key, rule, 0, s0) == Ok(s1);
    Pass2Next(base, key, rule, 1, s1);
    assert s1.builder + [rule[1]] == [x];
    assert OutsideStep(base, key, rule, 1, s1) == Ok(Split2(0, 1, [x], []));
  }

  /** `(x y)` after its first four characters: the space ended `x` and is
      itself kept, then `y` collected after it. */
  lemma SpaceInGroupSpace(base: RegularExpression?, key: string, x: char, y: char)
    requires IdentChar(x) && IdentChar(y)
    ensures Pass2Upto(base, key, ['(', x, ' ', y, ')'], 4) == Ok(Split2(0, 1, [' ', y], [Elem(TokenNode(base, key, [x]), false)]))
  {
    var rule := ['(', x, ' ', y, ')'];
    var a := Elem(TokenNode(base, key, [x]), false);
    var s2 := Split2(0, 1, [x], []);
    var s3 := Split2(0, 1, [' '], [a]);
    SpaceInGroupOpen(base, key, x, y);
    Pass2Next(base, key, rule, 2, s2);
    TrimIdent([x]);
    assert AddToken(base, key, [x], []) == [a] by {
      assert [] + [a] == [a];
    }
    assert IsWhiteSpace(rule[2]);
    assert EndToken(base, key, rule[2], s2) == Ok(s3);
    Pass2Next(base, key, rule, 3, s3);
    assert s3.builder + [rule[3]] == [' ', y];
    assert OutsideStep(base, key, rule, 3, s3) == Ok(Split2(0, 1, [' ', y], [a]));
  }

  /** A space then an identifier character trims to that character. */
  lemma SpacedIdent(y: char)
    requires IdentChar(y)
    ensures Trim(Trim([' ', y])) == [y]
  {
    var s := [' ', y];
    assert IsWhiteSpace(s[0]) && s[1..] == [y];
    assert TrimStart([y]) == [y];
    assert TrimStart(s) == [y];
    TrimIdent([y]);
  }

  /** A `)` outside strings is handled by `CloseBracket`. */
  lemma Pass2Close(base: RegularExpression?, key: string, rule: string, n: nat, st: Split2)
    requires n < |rule| && rule[n] == ')' && Pass2Upto(base, key, rule, n) == Ok(st) && st.mode == 0
    ensures |st.builder| <= n
    ensures Pass2Upto(base, key, rule, n + 1) == CloseBracket(base, key, rule, n, st)
  {
    Pass2Next(base, key, rule, n, st);
    assert !IsWhiteSpace(rule[n]);
    assert Step2(base, key, rule, n, st) == OutsideStep(base, key, rule, n, st);
  }

  /** A space then an identifier character compiles to a reference. */
  lemma SpacedIdentifier(base: RegularExpression?, key: string, y: char)
    requires IdentChar(y)
    ensures Parse(base, key, Trim(Trim([' ', y]))) == Ok(Seq([Elem(TokenNode(base, key, [y]), false)]))
  {
    SpacedIdent(y);
    IdentifierRule(base, key, [y]);
  }

  /** Proof helper for the bracket lemmas below: a `)` closing the
      outermost bracket compiles the trimmed text since the `(` as a group
      and appends it. It unfolds `CloseBracket` and states no property of
      the compiler by itself. */
  lemma CloseGroup(base: RegularExpression?, key: string, rule: string, i: nat, st: Split2, g: Node)
    requires i < |rule| && |st.builder| <= i && st.mode == 0 && st.brackets == 1
    requires Parse(base, key, Trim(Trim(st.builder))) == Ok(g)
    ensures CloseBracket(base, key, rule, i, st) == Ok(Split2(0, 0, "", st.elems + [Elem(g, false)]))
  {
  }

  /** Pass 2 keeps the character `rule[m]` of a group's text as text: outside
      strings it is neither whitespace nor `*`, and a `)` there closes only
      an inner bracket; inside a string it is not the closing quote. */
  predicate Collects(rule: string, m: nat)
    requires m < |rule|
  {
    if ModeAt(rule, m) == 0 then
      !IsWhiteSpace(rule[m]) && rule[m] != '*' && (rule[m] == ')' ==> DepthAt(rule, m) > 1)
    else !(ModeAt(rule, m) == 1 && rule[m] == '"')
  }

  /** After a leading `(`, pass 2 only collects the characters it keeps as
      text, tracking the quote state and the bracket depth. */
  lemma {:induction false} Pass2Group(base: RegularExpression?, key: string, rule: string, k: nat)
    requires 1 <= k <= |rule| && rule[0] == '('
    requires forall m :: 1 <= m < k ==> Collects(rule, m)
    ensures Pass2Upto(base, key, rule, k) == Ok(Split2(ModeAt(rule, k), DepthAt(rule, k), rule[1..k], []))
    ensures DepthAt(rule, k) >= 1
    decreases k
  {
    if k == 1 {
      var s0 := Split2(0, 0, "", []);
      Pass2Next(base, key, rule, 0, s0);
      assert Trim("") == "";
      assert OutsideStep(base, key, rule, 0, s0) == Ok(Split2(0, 1, "", []));
    } else {
      Pass2Group(base, key, rule, k - 1);
      var st := Split2(ModeAt(rule, k - 1), DepthAt(rule, k - 1), rule[1..k - 1], []);
      Pass2Next(base, key, rule, k - 1, st);
      var c := rule[k - 1];
      assert Collects(rule, k - 1);
      assert rule[1..k] == rule[1..k - 1] + [c];
      if st.mode == 0 {
        assert OutsideStep(base, key, rule, k - 1, st)
          == Ok(Split2(ModeAt(rule, k), DepthAt(rule, k), rule[1..k], []));
      }
    }
  }

  /** Inside a group pass 2 never returns to depth 0 before the end. */
  lemma {:induction false} GroupDepth(rule: string, k: nat)
    requires 1 <= k <= |rule| && rule[0] == '('
    requires forall m :: 1 <= m < k ==> Collects(rule, m)
    ensures DepthAt(rule, k) >= 1
    decreases k
  {
    if k > 1 {
      GroupDepth(rule, k - 1);
      assert Collects(rule, k - 1);
    }
  }

  /** Pass 2 over all of `(` + `r` + `)`: the `)` compiles the trimmed `r`
      and adds it as the one element, or throws its error. */
  lemma GroupPass2(base: RegularExpression?, key: string, r: string)
    requires forall m :: 1 <= m <= |r| ==> Collects("(" + r + ")", m)
    requires ModeAt("(" + r + ")", |r| + 1) == 0 && DepthAt("(" + r + ")", |r| + 1) == 1
    ensures Pass2Upto(base, key, "(" + r + ")", |r| + 2) ==
      match Parse(base, key, Trim(r))
      case Err(m) => Err(m)
      case Ok(g) => Ok(Split2(0, 0, "", [Elem(g, false)]))
  {
    var rule := "(" + r + ")";
    var n := |r| + 1;
    Pass2Group(base, key, rule, n);
    assert rule[1..n] == r;
    var st := Split2(0, 1, r, []);
    Pass2Close(base, key, rule, n, st);
    TrimIdempotent(r);
    match Parse(base, key, Trim(r))
    case Err(m) =>
    case Ok(g) =>
      CloseGroup(base, key, rule, n, st, g);
      assert st.elems + [Elem(g, false)] == [Elem(g, false)];
  }

  /** A rule that is one bracketed group compiles its trimmed text as a
      sub-rule: the result is a sequence holding that sub-rule's node, or
      the sub-rule's error. The text may hold anything pass 2 keeps as
      text, including nested brackets, strings and `|`. */
  lemma GroupRule(base: RegularExpression?, key: string, r: string)
    requires forall m :: 1 <= m <= |r| ==> Collects("(" + r + ")", m)
    requires ModeAt("(" + r + ")", |r| + 1) == 0 && DepthAt("(" + r + ")", |r| + 1) == 1
    ensures Parse(base, key, "(" + r + ")") ==
      match Parse(base, key, Trim(r))
      case Err(m) => Err(m)
      case Ok(g) => Ok(Seq([Elem(g, false)]))
  {
    var rule := "(" + r + ")";
    GroupPass2(base, key, r);
    forall i | 0 <= i < |rule|
      ensures !IsSplitAt(rule, i)
    {
      if 0 < i <= |r| {
        GroupDepth(rule, i);
      }
    }
    HasAltIff(rule);
    assert Trim("") == "";
  }

  /** Inside `(` + `s` + `)` with `s` an identifier, every character of `s`
      is kept as text at depth 1, and the `)` closes the group. */
  lemma {:induction false} GroupedIdentChars(s: string, k: nat)
    requires 1 <= k <= |s| + 1 && forall i :: 0 <= i < |s| ==> IdentChar(s[i])
    ensures ModeAt("(" + s + ")", k) == 0 && DepthAt("(" + s + ")", k) == 1
    ensures forall m :: 1 <= m < k ==> Collects("(" + s + ")", m)
    decreases k
  {
    var rule := "(" + s + ")";
    if k > 1 {
      GroupedIdentChars(s, k - 1);
      assert rule[k - 1] == s[k - 2];
    }
  }

  /** A bracketed identifier compiles to a group holding its reference. */
  lemma GroupedIdentifier(base: RegularExpression?, key: string, s: string)
    requires |s| > 0 && forall i :: 0 <= i < |s| ==> IdentChar(s[i])
    ensures Parse(base, key, "(" + s + ")") == Ok(Seq([Elem(Seq([Elem(Ref(s, if s == key then base else null), false)]), false)]))
  {
    GroupedIdentChars(s, |s| + 1);
    TrimIdent(s);
    IdentifierRule(base, key, s);
    GroupRule(base, key, s);
  }

  /** The closing bracket of `(x y)` compiles `y` as a group. */
  lemma SpaceInGroupBracket(base: RegularExpression?, key: string, x: char, y: char)
    requires IdentChar(x) && IdentChar(y)
    ensures CloseBracket(base, key, ['(', x, ' ', y, ')'], 4, Split2(0, 1, [' ', y], [Elem(TokenNode(base, key, [x]), false)]))
      == Ok(Split2(0, 0, "", [
        Elem(TokenNode(base, key, [x]), false),
        Elem(Seq([Elem(TokenNode(base, key, [y]), false)]), false)]))
  {
    var a := Elem(TokenNode(base, key, [x]), false);
    var b := Seq([Elem(TokenNode(base, key, [y]), false)]);
    var st := Split2(0, 1, [' ', y], [a]);
    SpacedIdentifier(base, key, y);
    CloseGroup(base, key, ['(', x, ' ', y, ')'], 4, st, b);
    assert st.elems + [Elem(b, false)] == [a, Elem(b, false)];
  }

  /** Pass 2 over all of `(x y)`: the closing bracket compiles the rest of
      the group, `y`, as a group of its own. */
  lemma SpaceInGroupClose(base: RegularExpression?, key: string, x: char, y: char)
    requires IdentChar(x) && IdentChar(y)
    ensures Pass2Upto(base, key, ['(', x, ' ', y, ')'], 5) == Ok(Split2(0, 0, "", [
      Elem(TokenNode(base, key, [x]), false),
      Elem(Seq([Elem(TokenNode(base, key, [y]), false)]), false)]))
  {
    var rule := ['(', x, ' ', y, ')'];
    var s4 := Split2(0, 1, [' ', y], [Elem(TokenNode(base, key, [x]), false)]);
    SpaceInGroupSpace(base, key, x, y);
    Pass2Close(base, key, rule, 4, s4);
    SpaceInGroupBracket(base, key, x, y);
  }

  /** Whitespace inside brackets still ends a token: `(x y)` is the
      reference `x` followed by the group `y`, not one group. */
  lemma SpaceInGroup(base: RegularExpression?, key: string, x: char, y: char)
    requires IdentChar(x) && IdentChar(y)
    ensures Parse(base, key, ['(', x, ' ', y, ')']) == Ok(Seq([
      Elem(TokenNode(base, key, [x]), false),
      Elem(Seq([Elem(TokenNode(base, key, [y]), false)]), false)]))
  {
    SpaceInGroupClose(base, key, x, y);
    WholeSequence(base, key, ['(', x, ' ', y, ')'], Split2(0, 0, "", [
      Elem(TokenNode(base, key, [x]), false),
      Elem(Seq([Elem(TokenNode(base, key, [y]), false)]), false)]));
  }

  /** `("x")` after its first three characters: a group opened and a string
      begun. */
  lemma QuoteInGroupOpen(base: RegularExpression?, key: string, x: char)
    requires IdentChar(x)
    ensures Pass2Upto(base, key, ['(', '"', x, '"', ')'], 3) == Ok(Split2(NextMode(1, x), 1, ['"', x], []))
  {
    var rule := ['(', '"', x, '"', ')'];
    var s0 := Split2(0, 0, "", []);
    var s1 := Split2(0, 1, "", []);
    var s2 := Split2(1, 1, ['"'], []);
    Pass2Next(base, key, rule, 0, s0);
    assert Trim("") == "";
    assert OutsideStep(base, key, rule, 0, s0) == Ok(s1);
    Pass2Next(base, key, rule, 1, s1);
    assert s1.builder + [rule[1]] == s2.builder;
    assert OutsideStep(base, key, rule, 1, s1) == Ok(s2);
    Pass2Next(base, key, rule, 2, s2);
    assert s2.builder + [rule[2]] == ['"', x];
    assert QuotedStep(base, key, rule[2], s2) == Split2(NextMode(1, x), 1, ['"', x], []);
  }

  /** `("x")` after its first four characters: the closing quote added the
      literal `x` to the elements, although a bracket is open. */
  lemma QuoteInGroupQuote(base: RegularExpression?, key: string, x: char)
    requires IdentChar(x) && x != '\\'
    ensures Pass2Upto(base, key, ['(', '"', x, '"', ')'], 4) == Ok(Split2(0, 1, "", [Elem(Literal([x]), false)]))
  {
    var rule := ['(', '"', x, '"', ')'];
    var s3 := Split2(1, 1, ['"', x], []);
    QuoteInGroupOpen(base, key, x);
    Pass2Next(base, key, rule, 3, s3);
    assert Trim(['"', x]) == ['"', x] by {
      assert TrimStart(['"', x]) == ['"', x];
    }
    assert ['"', x][1..] == [x];
    assert QuotedStep(base, key, rule[3], s3) == Split2(0, 1, "", [Elem(Literal([x]), false)]);
  }

  /** The empty rule compiles to the empty sequence. */
  lemma EmptyRule(base: RegularExpression?, key: string)
    ensures Parse(base, key, "") == Ok(Seq([]))
  {
    assert Pass2Upto(base, key, "", 0) == Ok(Split2(0, 0, "", []));
    NoBarNoAlt("");
  }

  /** Pass 2 over all of `("x")`: the closing bracket finds nothing left in
      the group and appends an empty sequence. */
  lemma QuoteInGroupClose(base: RegularExpression?, key: string, x: char)
    requires IdentChar(x) && x != '\\'
    ensures Pass2Upto(base, key, ['(', '"', x, '"', ')'], 5) == Ok(Split2(0, 0, "", [Elem(Literal([x]), false), Elem(Seq([]), false)]))
  {
    var rule := ['(', '"', x, '"', ')'];
    var lit := Elem(Literal([x]), false);
    var s4 := Split2(0, 1, "", [lit]);
    QuoteInGroupQuote(base, key, x);
    Pass2Close(base, key, rule, 4, s4);
    EmptyRule(base, key);
    assert Trim(Trim("")) == "";
    CloseGroup(base, key, rule, 4, s4, Seq([]));
    assert [lit] + [Elem(Seq([]), false)] == [lit, Elem(Seq([]), false)];
  }

  /** A closing quote ends the literal whatever the bracket depth, so a
      quoted string in brackets is added to the enclosing sequence and the
      group itself is left empty: `("x")` compiles to the literal `x`
      followed by an empty group. */
  lemma QuoteInGroup(base: RegularExpression?, key: string, x: char)
    requires IdentChar(x) && x != '\\'
    ensures Parse(base, key, ['(', '"', x, '"', ')']) == Ok(Seq([Elem(Literal([x]), false), Elem(Seq([]), false)]))
  {
    QuoteInGroupClose(base, key, x);
    WholeSequence(base, key, ['(', '"', x, '"', ')'], Split2(0, 0, "", [Elem(Literal([x]), false), Elem(Seq([]), false)]));
  }

  /** The empty group such a rule contains throws when it is reached:
      capturing "a" with `("a")` fails with "Unhandled regular expression
      rule". */
  lemma QuoteInGroupCapture(fuel: nat)
    requires fuel >= 2
    ensures Captured(Seq([Elem(Literal("a"), false), Elem(Seq([]), false)]), "a", 0, 1, fuel) == Fault(UnhandledRule)
  {
    var elems := [Elem(Literal("a"), false), Elem(Seq([]), false)];
    assert Matches("a", 0, "a", 0, 1) == Ok(true);
    assert Captured(Literal("a"), "a", 0, 1, fuel - 1) == Done(1);
    assert Captured(Seq([]), "a", 1, 1, fuel - 1) == Fault(UnhandledRule);
    assert CapturedSeq(elems, "a", 1, 1, fuel - 1, 1) == Fault(UnhandledRule);
    assert CapturedSeq(elems, "a", 0, 1, fuel - 1, 0) == Fault(UnhandledRule);
  }
}
