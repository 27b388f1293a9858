/** Properties of capturing: literal matching, ordered choice, greedy
    repetition without backtracking, the role of fuel, and the two ways a
    capture can run forever. */
module RegExCapture {
  import opened Errors
  import opened RegEx

  /** From a non-negative start a literal matches iff it fits before `end`
      and the text there spells it; it then returns the position after it. */
  lemma LiteralCaptureIff(s: string, text: string, start: int, end: int)
    requires 0 <= start
    ensures LiteralCapture(s, text, start, end) ==
      if start + |s| <= end && start + |s| <= |text| && text[start..start + |s|] == s
      then Done(start + |s|) else Done(-1)
  {
    if start + |s| <= end && start + |s| <= |text| && |s| == 0 {
      assert text[start..start + |s|] == s;
    }
  }

  /** Alternation is ordered choice: the result of the first alternative
      that does not return -1. */
  lemma {:induction false} AltsFirstHit(alts: seq<Node>, text: string, start: int, end: int, fuel: nat, i: nat, k: nat)
    requires i <= k < |alts|
    requires forall j :: i <= j < k ==> Captured(alts[j], text, start, end, fuel) == Done(-1)
    requires Captured(alts[k], text, start, end, fuel) != Done(-1)
    ensures CapturedAlts(alts, text, start, end, fuel, i) == Captured(alts[k], text, start, end, fuel)
    decreases k - i
  {
    if i < k {
      AltsFirstHit(alts, text, start, end, fuel, i + 1, k);
    }
  }

  /** Alternation returns -1 when every alternative does. */
  lemma {:induction false} AltsAllMiss(alts: seq<Node>, text: string, start: int, end: int, fuel: nat, i: nat)
    requires i <= |alts|
    requires forall j :: i <= j < |alts| ==> Captured(alts[j], text, start, end, fuel) == Done(-1)
    ensures CapturedAlts(alts, text, start, end, fuel, i) == Done(-1)
    decreases |alts| - i
  {
    if i < |alts| {
      AltsAllMiss(alts, text, start, end, fuel, i + 1);
    }
  }

  /** Fuel only decides whether a capture finishes: a capture that finishes
      gives the same outcome with any larger fuel. */
  lemma {:induction false} CaptureFuelMono(n: Node, text: string, start: int, end: int, f1: nat, f2: nat)
    requires f1 <= f2 && Captured(n, text, start, end, f1) != OutOfFuel
    ensures Captured(n, text, start, end, f2) == Captured(n, text, start, end, f1)
    decreases f1, 0, 0
  {
    match n
    case Literal(_) =>
    case Ref(_, t) =>
      if t != null {
        CaptureFuelMono(t.BaseNode, text, start, end, f1 - 1, f2 - 1);
      }
    case Alt(alts) =>
      if |alts| > 0 {
        AltsFuelMono(alts, text, start, end, f1 - 1, f2 - 1, 0);
      }
    case Seq(elems) =>
      if |elems| > 0 {
        SeqFuelMono(elems, text, start, end, f1 - 1, f2 - 1, 0);
      }
  }

  lemma {:induction false} AltsFuelMono(alts: seq<Node>, text: string, start: int, end: int, f1: nat, f2: nat, i: nat)
    requires i <= |alts| && f1 <= f2 && CapturedAlts(alts, text, start, end, f1, i) != OutOfFuel
    ensures CapturedAlts(alts, text, start, end, f2, i) == CapturedAlts(alts, text, start, end, f1, i)
    decreases f1, 1, |alts| - i
  {
    if i < |alts| {
      var c := Captured(alts[i], text, start, end, f1);
      if c != OutOfFuel {
        CaptureFuelMono(alts[i], text, start, end, f1, f2);
      }
      if c == Done(-1) {
        AltsFuelMono(alts, text, start, end, f1, f2, i + 1);
      }
    }
  }

  lemma {:induction false} SeqFuelMono(elems: seq<Elem>, text: string, pos: int, end: int, f1: nat, f2: nat, i: nat)
    requires i <= |elems| && f1 <= f2 && CapturedSeq(elems, text, pos, end, f1, i) != OutOfFuel
    ensures CapturedSeq(elems, text, pos, end, f2, i) == CapturedSeq(elems, text, pos, end, f1, i)
    decreases f1, 1, |elems| - i
  {
    if i < |elems| {
      var e := elems[i];
      var c := Captured(e.node, text, pos, end, f1);
      if c != OutOfFuel {
        CaptureFuelMono(e.node, text, pos, end, f1, f2);
      }
      if c.Done? {
        if c.pos == -1 {
          if e.zeroOrMore {
            SeqFuelMono(elems, text, pos, end, f1, f2, i + 1);
          }
        } else if e.zeroOrMore {
          var q := Repeated(e.node, text, c.pos, end, f1);
          if q != OutOfFuel {
            RepeatFuelMono(e.node, text, c.pos, end, f1, f2);
          }
          if q.Done? {
            SeqFuelMono(elems, text, q.pos, end, f1, f2, i + 1);
          }
        } else {
          SeqFuelMono(elems, text, c.pos, end, f1, f2, i + 1);
        }
      }
    }
  }

  lemma {:induction false} RepeatFuelMono(node: Node, text: string, pos: int, end: int, f1: nat, f2: nat)
    requires f1 <= f2 && Repeated(node, text, pos, end, f1) != OutOfFuel
    ensures Repeated(node, text, pos, end, f2) == Repeated(node, text, pos, end, f1)
    decreases f1, 1, 0
  {
    var c := Captured(node, text, pos, end, f1);
    CaptureFuelMono(node, text, pos, end, f1, f2);
    if c.Done? && c.pos != -1 {
      RepeatFuelMono(node, text, c.pos, end, f1 - 1, f2 - 1);
    }
  }

  /** A greedy repetition ends where the element no longer matches: it has
      moved forward from `pos`, and the element fails at the end position
      with the fuel that was left. */
  lemma {:induction false} RepeatStopsAtMiss(node: Node, text: string, pos: int, end: int, fuel: nat)
    requires Repeated(node, text, pos, end, fuel).Done?
    ensures pos <= Repeated(node, text, pos, end, fuel).pos
    ensures exists g: nat :: g <= fuel && Captured(node, text, Repeated(node, text, pos, end, fuel).pos, end, g) == Done(-1)
    decreases fuel
  {
    var c := Captured(node, text, pos, end, fuel);
    if c.pos == -1 {
      assert Captured(node, text, pos, end, fuel) == Done(-1);
    } else {
      RepeatStopsAtMiss(node, text, c.pos, end, fuel - 1);
      var g: nat :| g <= fuel - 1 && Captured(node, text, Repeated(node, text, c.pos, end, fuel - 1).pos, end, g) == Done(-1);
      assert g <= fuel;
    }
  }

  /** The empty literal matches anywhere inside the text and before `end`. */
  lemma EmptyLiteralMatches(text: string, pos: int, end: int, fuel: nat)
    requires 0 <= pos <= end && pos <= |text| && fuel > 0
    ensures Captured(Literal(""), text, pos, end, fuel) == Done(pos)
  {
    assert text[pos..pos] == "";
  }

  /** `""*` repeats forever: the `while (cap != -1)` loop never ends when
      the element matches without moving. */
  lemma {:induction false} EmptyStarDiverges(text: string, pos: int, end: int, fuel: nat)
    requires 0 <= pos <= end && pos <= |text|
    ensures Repeated(Literal(""), text, pos, end, fuel) == OutOfFuel
    decreases fuel
  {
    if fuel > 0 {
      EmptyLiteralMatches(text, pos, end, fuel);
      EmptyStarDiverges(text, pos, end, fuel - 1);
    }
  }

  /** So a sequence starting with `""*` never finishes, whatever the fuel. */
  lemma EmptyStarSequenceDiverges(rest: seq<Elem>, text: string, start: int, end: int, fuel: nat)
    requires 0 <= start <= end && start <= |text|
    ensures Captured(Seq([Elem(Literal(""), true)] + rest), text, start, end, fuel) == OutOfFuel
  {
    if fuel > 1 {
      EmptyLiteralMatches(text, start, end, fuel - 1);
      EmptyStarDiverges(text, start, end, fuel - 1);
    }
  }

  /** A rule whose first element refers to the rule itself (left
      recursion) never finishes, whatever the fuel. */
  lemma {:induction false} LeftRecursionDiverges(e: RegularExpression, k: string, z: bool, rest: seq<Elem>, text: string, start: int, end: int, fuel: nat)
    requires e.BaseNode == Seq([Elem(Ref(k, e), z)] + rest)
    ensures Captured(e.BaseNode, text, start, end, fuel) == OutOfFuel
    decreases fuel
  {
    if fuel >= 2 {
      if fuel > 2 {
        LeftRecursionDiverges(e, k, z, rest, text, start, end, fuel - 2);
      }
      assert Captured(e.BaseNode, text, start, end, fuel - 2) == OutOfFuel;
      assert Captured(Ref(k, e), text, start, end, fuel - 1) == OutOfFuel;
      assert CapturedSeq(e.BaseNode.elems, text, start, end, fuel - 1, 0) == OutOfFuel;
    }
  }

  /** A tree whose every reference is set to one of the expressions `S` and
      which has no empty alternation or sequence. */
  predicate Sound(n: Node, S: set<RegularExpression>)
    decreases n, 1
  {
    match n
    case Literal(_) => true
    case Ref(_, t) => t != null && t in S
    case Seq(elems) => |elems| > 0 && ElemsSound(elems, S)
    case Alt(alts) => |alts| > 0 && AltsSound(alts, S)
  }

  predicate ElemsSound(elems: seq<Elem>, S: set<RegularExpression>)
    decreases elems, 0
  {
    forall i :: 0 <= i < |elems| ==> ElemSound(elems[i], S)
  }

  predicate ElemSound(e: Elem, S: set<RegularExpression>)
    decreases e, 2
  {
    Sound(e.node, S)
  }

  predicate AltsSound(alts: seq<Node>, S: set<RegularExpression>)
    decreases alts, 0
  {
    forall i :: 0 <= i < |alts| ==> Sound(alts[i], S)
  }

  /** A set of expressions all linked to one another. */
  predicate Closed(S: set<RegularExpression>)
    reads S
  {
    forall e :: e in S ==> Sound(e.BaseNode, S)
  }

  /** Once expressions are linked to one another and have no empty groups,
      capturing from a non-negative start never throws. */
  lemma {:induction false} SoundNeverFaults(S: set<RegularExpression>, n: Node, text: string, start: int, end: int, fuel: nat)
    requires Closed(S) && Sound(n, S) && 0 <= start
    ensures !Captured(n, text, start, end, fuel).Fault?
    decreases fuel, 0, 0
  {
    if fuel > 0 {
      match n
      case Literal(_) =>
      case Ref(_, t) => SoundNeverFaults(S, t.BaseNode, text, start, end, fuel - 1);
      case Alt(alts) => AltsNeverFault(S, alts, text, start, end, fuel - 1, 0);
      case Seq(elems) => SeqNeverFaults(S, elems, text, start, end, fuel - 1, 0);
    }
  }

  lemma {:induction false} AltsNeverFault(S: set<RegularExpression>, alts: seq<Node>, text: string, start: int, end: int, fuel: nat, i: nat)
    requires Closed(S) && AltsSound(alts, S) && 0 <= start && i <= |alts|
    ensures !CapturedAlts(alts, text, start, end, fuel, i).Fault?
    decreases fuel, 1, |alts| - i
  {
    if i < |alts| {
      SoundNeverFaults(S, alts[i], text, start, end, fuel);
      AltsNeverFault(S, alts, text, start, end, fuel, i + 1);
    }
  }

  lemma {:induction false} SeqNeverFaults(S: set<RegularExpression>, elems: seq<Elem>, text: string, pos: int, end: int, fuel: nat, i: nat)
    requires Closed(S) && ElemsSound(elems, S) && 0 <= pos && i <= |elems|
    ensures !CapturedSeq(elems, text, pos, end, fuel, i).Fault?
    decreases fuel, 1, |elems| - i
  {
    if i < |elems| {
      var e := elems[i];
      assert ElemSound(e, S);
      SoundNeverFaults(S, e.node, text, pos, end, fuel);
      var c := Captured(e.node, text, pos, end, fuel);
      if c.Done? {
        if c.pos == -1 {
          SeqNeverFaults(S, elems, text, pos, end, fuel, i + 1);
        } else {
          if e.zeroOrMore {
            RepeatNeverFaults(S, e.node, text, c.pos, end, fuel);
            var q := Repeated(e.node, text, c.pos, end, fuel);
            if q.Done? {
              SeqNeverFaults(S, elems, text, q.pos, end, fuel, i + 1);
            }
          } else {
            SeqNeverFaults(S, elems, text, c.pos, end, fuel, i + 1);
          }
        }
      }
    }
  }

  lemma {:induction false} RepeatNeverFaults(S: set<RegularExpression>, node: Node, text: string, pos: int, end: int, fuel: nat)
    requires Closed(S) && Sound(node, S) && 0 <= pos
    ensures !Repeated(node, text, pos, end, fuel).Fault?
    decreases fuel, 1, 0
  {
    if fuel > 0 {
      SoundNeverFaults(S, node, text, pos, end, fuel);
      var c := Captured(node, text, pos, end, fuel);
      if c.Done? && c.pos != -1 {
        RepeatNeverFaults(S, node, text, c.pos, end, fuel - 1);
      }
    }
  }

  /** An unlinked reference throws "Expression requires linking". */
  lemma UnlinkedThrows(k: string, text: string, start: int, end: int, fuel: nat)
    requires fuel > 0
    ensures Captured(Ref(k, null), text, start, end, fuel) == Fault(RequiresLinking)
  {
  }

  /** Repetition is greedy and never backtracks: `"a"* "a"` does not match
      "aa", because the starred element takes both characters. */
  lemma GreedyNoBacktrack()
    ensures Captured(Seq([Elem(Literal("a"), true), Elem(Literal("a"), false)]), "aa", 0, 2, 10) == Done(-1)
  {
    var a := Literal("a");
    var elems := [Elem(a, true), Elem(a, false)];
    assert "aa"[0..1] == "a"[0..1] && "aa"[1..2] == "a"[0..1];
    assert Captured(a, "aa", 0, 2, 9) == Done(1);
    assert Captured(a, "aa", 1, 2, 9) == Done(2);
    assert Captured(a, "aa", 2, 2, 8) == Done(-1);
    assert Repeated(a, "aa", 2, 2, 8) == Done(2);
    assert Repeated(a, "aa", 1, 2, 9) == Done(2);
    assert Captured(a, "aa", 2, 2, 9) == Done(-1);
    assert CapturedSeq(elems, "aa", 2, 2, 9, 1) == Done(-1);
    assert CapturedSeq(elems, "aa", 0, 2, 9, 0) == Done(-1);
  }

  /** Alternation is ordered, not longest-match: `"a" | "ab"` captures one
      character of "ab", `"ab" | "a"` captures two. */
  lemma OrderedChoice()
    ensures Captured(Alt([Literal("a"), Literal("ab")]), "ab", 0, 2, 2) == Done(1)
    ensures Captured(Alt([Literal("ab"), Literal("a")]), "ab", 0, 2, 2) == Done(2)
  {
    assert "ab"[0..1] == "a"[0..1] && "ab"[0..2] == "ab"[0..2];
    assert Captured(Literal("a"), "ab", 0, 2, 1) == Done(1);
    assert Captured(Literal("ab"), "ab", 0, 2, 1) == Done(2);
    assert CapturedAlts([Literal("a"), Literal("ab")], "ab", 0, 2, 1, 0) == Done(1);
    assert CapturedAlts([Literal("ab"), Literal("a")], "ab", 0, 2, 1, 0) == Done(2);
  }
}
