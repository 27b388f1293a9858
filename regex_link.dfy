/** What `Link` does to a node tree: which references it sets, when it stops,
    and what it leaves alone. */
module RegExLink {
  import opened Errors
  import opened RegEx

  /** The reference keys of a tree in the order `Link` visits them. */
  function RefKeys(n: Node): seq<string>
    decreases n, 1
  {
    match n
    case Literal(_) => []
    case Ref(k, _) => [k]
    case Seq(elems) => ElemsKeys(elems)
    case Alt(alts) => AltsKeys(alts)
  }

  function ElemsKeys(elems: seq<Elem>): seq<string>
    decreases elems, 0
  {
    if elems == [] then [] else ElemKeys(elems[0]) + ElemsKeys(elems[1..])
  }

  function ElemKeys(e: Elem): seq<string>
    decreases e, 2
  {
    RefKeys(e.node)
  }

  function AltsKeys(alts: seq<Node>): seq<string>
    decreases alts, 0
  {
    if alts == [] then [] else RefKeys(alts[0]) + AltsKeys(alts[1..])
  }

  /** The outcome of looking the keys up in order: the message of the first
      lookup that throws, if any. */
  function FirstError(keys: seq<string>, f: Linker): Status
  {
    if keys == [] then Pass
    else match f(keys[0])
      case Err(m) => Fail(m)
      case Ok(_) => FirstError(keys[1..], f)
  }

  lemma {:induction false} FirstErrorAppend(a: seq<string>, b: seq<string>, f: Linker)
    ensures FirstError(a + b, f) == if FirstError(a, f).Fail? then FirstError(a, f) else FirstError(b, f)
  {
    if a != [] {
      assert (a + b)[1..] == a[1..] + b;
      FirstErrorAppend(a[1..], b, f);
    } else {
      assert a + b == b;
    }
  }

  /** Looking keys up succeeds exactly when every lookup succeeds, and
      otherwise fails with the message of the first failing key. */
  lemma {:induction false} FirstErrorChar(keys: seq<string>, f: Linker)
    ensures FirstError(keys, f).Pass? <==> forall k :: k in keys ==> f(k).Ok?
    ensures FirstError(keys, f).Fail? ==>
      exists i :: 0 <= i < |keys| && f(keys[i]) == Err(FirstError(keys, f).msg) && forall j :: 0 <= j < i ==> f(keys[j]).Ok?
  {
    if keys != [] {
      FirstErrorChar(keys[1..], f);
      if f(keys[0]).Ok? {
        assert forall k :: k in keys ==> k == keys[0] || k in keys[1..];
        if FirstError(keys, f).Fail? {
          var i :| 0 <= i < |keys[1..]| && f(keys[1..][i]) == Err(FirstError(keys[1..], f).msg) && forall j :: 0 <= j < i ==> f(keys[1..][j]).Ok?;
          assert f(keys[i + 1]) == Err(FirstError(keys, f).msg);
          assert forall j :: 0 <= j < i + 1 ==> f(keys[j]).Ok? by {
            forall j | 0 <= j < i + 1 ensures f(keys[j]).Ok? {
              if j > 0 {
                assert keys[j] == keys[1..][j - 1];
              }
            }
          }
        }
      } else {
        assert keys[0] in keys;
        assert f(keys[0]) == Err(FirstError(keys, f).msg);
      }
    }
  }

  /** `Link` stops exactly at the first reference whose lookup throws. */
  lemma {:induction false} LinkStatus(n: Node, f: Linker)
    ensures LinkNode(n, f).status == FirstError(RefKeys(n), f)
    decreases n, 1
  {
    match n
    case Literal(_) =>
    case Ref(k, _) =>
    case Seq(elems) => LinkElemsStatus(elems, f);
    case Alt(alts) => LinkAltsStatus(alts, f);
  }

  lemma {:induction false} LinkElemsStatus(elems: seq<Elem>, f: Linker)
    ensures LinkElems(elems, f).status == FirstError(ElemsKeys(elems), f)
    decreases elems, 0
  {
    if elems != [] {
      LinkElemStatus(elems[0], f);
      LinkElemsStatus(elems[1..], f);
      FirstErrorAppend(ElemKeys(elems[0]), ElemsKeys(elems[1..]), f);
    }
  }

  lemma {:induction false} LinkElemStatus(e: Elem, f: Linker)
    ensures LinkElem(e, f).status == FirstError(ElemKeys(e), f)
    decreases e, 2
  {
    LinkStatus(e.node, f);
  }

  lemma {:induction false} LinkAltsStatus(alts: seq<Node>, f: Linker)
    ensures LinkAlts(alts, f).status == FirstError(AltsKeys(alts), f)
    decreases alts, 0
  {
    if alts != [] {
      LinkStatus(alts[0], f);
      LinkAltsStatus(alts[1..], f);
      FirstErrorAppend(RefKeys(alts[0]), AltsKeys(alts[1..]), f);
    }
  }

  /** `Link` finishes iff every reference key can be looked up. */
  lemma LinkPassesIff(n: Node, f: Linker)
    ensures LinkNode(n, f).status.Pass? <==> forall k :: k in RefKeys(n) ==> f(k).Ok?
  {
    LinkStatus(n, f);
    FirstErrorChar(RefKeys(n), f);
  }

  /** `Link` changes reference targets only: literals, keys, the shape and
      every zero-or-more flag are as before. */
  lemma {:induction false} LinkKeepsShape(n: Node, f: Linker)
    ensures Erase(LinkNode(n, f).value) == Erase(n)
    decreases n, 1
  {
    match n
    case Literal(_) =>
    case Ref(k, _) =>
    case Seq(elems) => LinkElemsKeepShape(elems, f);
    case Alt(alts) => LinkAltsKeepShape(alts, f);
  }

  lemma {:induction false} LinkElemsKeepShape(elems: seq<Elem>, f: Linker)
    ensures EraseElems(LinkElems(elems, f).value) == EraseElems(elems)
    decreases elems, 0
  {
    if elems != [] {
      var h := LinkElem(elems[0], f);
      LinkElemKeepsShape(elems[0], f);
      var r := LinkElems(elems, f).value;
      assert r[0] == h.value;
      if h.status.Pass? {
        LinkElemsKeepShape(elems[1..], f);
      }
      assert r[1..] == (if h.status.Fail? then elems[1..] else LinkElems(elems[1..], f).value);
    }
  }

  lemma {:induction false} LinkElemKeepsShape(e: Elem, f: Linker)
    ensures EraseElem(LinkElem(e, f).value) == EraseElem(e)
    decreases e, 2
  {
    LinkKeepsShape(e.node, f);
  }

  lemma {:induction false} LinkAltsKeepShape(alts: seq<Node>, f: Linker)
    ensures EraseAlts(LinkAlts(alts, f).value) == EraseAlts(alts)
    decreases alts, 0
  {
    if alts != [] {
      var h := LinkNode(alts[0], f);
      LinkKeepsShape(alts[0], f);
      var r := LinkAlts(alts, f).value;
      assert r[0] == h.value;
      if h.status.Pass? {
        LinkAltsKeepShape(alts[1..], f);
      }
      assert r[1..] == (if h.status.Fail? then alts[1..] else LinkAlts(alts[1..], f).value);
    }
  }

  /** Every reference of the tree points where the lookup says. */
  predicate LinkedBy(n: Node, f: Linker)
    decreases n, 1
  {
    match n
    case Literal(_) => true
    case Ref(k, t) => f(k) == Ok(t)
    case Seq(elems) => ElemsLinkedBy(elems, f)
    case Alt(alts) => AltsLinkedBy(alts, f)
  }

  predicate ElemsLinkedBy(elems: seq<Elem>, f: Linker)
    decreases elems, 0
  {
    elems == [] || (ElemLinkedBy(elems[0], f) && ElemsLinkedBy(elems[1..], f))
  }

  predicate ElemLinkedBy(e: Elem, f: Linker)
    decreases e, 2
  {
    LinkedBy(e.node, f)
  }

  predicate AltsLinkedBy(alts: seq<Node>, f: Linker)
    decreases alts, 0
  {
    alts == [] || (LinkedBy(alts[0], f) && AltsLinkedBy(alts[1..], f))
  }

  /** A `Link` that finishes sets every reference reachable through
      alternatives and sequence children, self-references included. */
  lemma {:induction false} LinkSetsAll(n: Node, f: Linker)
    requires LinkNode(n, f).status.Pass?
    ensures LinkedBy(LinkNode(n, f).value, f)
    decreases n, 1
  {
    match n
    case Literal(_) =>
    case Ref(k, _) =>
    case Seq(elems) => LinkElemsSetAll(elems, f);
    case Alt(alts) => LinkAltsSetAll(alts, f);
  }

  lemma {:induction false} LinkElemsSetAll(elems: seq<Elem>, f: Linker)
    requires LinkElems(elems, f).status.Pass?
    ensures ElemsLinkedBy(LinkElems(elems, f).value, f)
    decreases elems, 0
  {
    if elems != [] {
      var r := LinkElems(elems, f).value;
      LinkElemSetsAll(elems[0], f);
      LinkElemsSetAll(elems[1..], f);
      assert r[0] == LinkElem(elems[0], f).value;
      assert r[1..] == LinkElems(elems[1..], f).value;
    }
  }

  lemma {:induction false} LinkElemSetsAll(e: Elem, f: Linker)
    requires LinkElem(e, f).status.Pass?
    ensures ElemLinkedBy(LinkElem(e, f).value, f)
    decreases e, 2
  {
    LinkSetsAll(e.node, f);
  }

  lemma {:induction false} LinkAltsSetAll(alts: seq<Node>, f: Linker)
    requires LinkAlts(alts, f).status.Pass?
    ensures AltsLinkedBy(LinkAlts(alts, f).value, f)
    decreases alts, 0
  {
    if alts != [] {
      var r := LinkAlts(alts, f).value;
      LinkSetsAll(alts[0], f);
      LinkAltsSetAll(alts[1..], f);
      assert r[0] == LinkNode(alts[0], f).value;
      assert r[1..] == LinkAlts(alts[1..], f).value;
    }
  }

  /** Linking twice with the same lookup is linking once, also when the
      first walk stopped early. */
  lemma {:induction false} LinkIdempotent(n: Node, f: Linker)
    ensures LinkNode(LinkNode(n, f).value, f) == LinkNode(n, f)
    decreases n, 1
  {
    match n
    case Literal(_) =>
    case Ref(k, _) =>
    case Seq(elems) => LinkElemsIdempotent(elems, f);
    case Alt(alts) => LinkAltsIdempotent(alts, f);
  }

  lemma {:induction false} LinkElemsIdempotent(elems: seq<Elem>, f: Linker)
    ensures LinkElems(LinkElems(elems, f).value, f) == LinkElems(elems, f)
    decreases elems, 0
  {
    if elems != [] {
      var r := LinkElems(elems, f).value;
      var h := LinkElem(elems[0], f);
      LinkElemIdempotent(elems[0], f);
      assert r[0] == h.value;
      assert LinkElem(r[0], f) == h;
      if h.status.Pass? {
        LinkElemsIdempotent(elems[1..], f);
        assert r[1..] == LinkElems(elems[1..], f).value;
      } else {
        assert r[1..] == elems[1..];
      }
    }
  }

  lemma {:induction false} LinkElemIdempotent(e: Elem, f: Linker)
    ensures LinkElem(LinkElem(e, f).value, f) == LinkElem(e, f)
    decreases e, 2
  {
    LinkIdempotent(e.node, f);
  }

  lemma {:induction false} LinkAltsIdempotent(alts: seq<Node>, f: Linker)
    ensures LinkAlts(LinkAlts(alts, f).value, f) == LinkAlts(alts, f)
    decreases alts, 0
  {
    if alts != [] {
      var r := LinkAlts(alts, f).value;
      var h := LinkNode(alts[0], f);
      LinkIdempotent(alts[0], f);
      assert r[0] == h.value;
      if h.status.Pass? {
        LinkAltsIdempotent(alts[1..], f);
        assert r[1..] == LinkAlts(alts[1..], f).value;
      } else {
        assert r[1..] == alts[1..];
      }
    }
  }
}
