/** `LexicalTokenDictionary`: the registry of tokens, indexed by code and by
    key and kept in insertion order, and the linking of their expressions. */
module LexicalDictionary {
  import opened Errors
  import opened RegEx
  import opened LexicalTokens
  import RegExLink

  const UnexpectedKey := "Unexpected key"
  const UnexpectedCode := "Unexpected code"
  const AlreadyContains := "Dictionary already contains token"

  class LexicalTokenDictionary {
    var CodeDictionary: map<Short, LexicalToken>
    var KeyDictionary: map<string, LexicalToken>
    /** The `Tokens` linked list, in insertion order. */
    var Tokens: seq<LexicalToken>

    /** The three collections hold the same tokens: each listed token is
        indexed under its code and its key, nothing else is indexed, and no
        two listed tokens share a code or a key. */
    ghost predicate Valid()
      reads this
    {
      Synced(CodeDictionary, KeyDictionary, Tokens) && |CodeDictionary| == |Tokens|
    }

    constructor ()
      ensures Valid() && Tokens == []
    {
      CodeDictionary := map[];
      KeyDictionary := map[];
      Tokens := [];
    }

    /** The indexer `this[key]`: the registered token with that key. */
    function ByKey(key: string): (r: Result<LexicalToken>)
      requires Valid()
      reads this
      ensures r.Ok? <==> exists i :: 0 <= i < |Tokens| && Tokens[i].Key == key
      ensures r.Ok? ==> r.value in Tokens && r.value.Key == key
      ensures r.Err? ==> r.msg == UnexpectedKey
    {
      if key !in KeyDictionary then Err(UnexpectedKey) else Ok(KeyDictionary[key])
    }

    /** The indexer `this[code]`: the registered token with that code. */
    function ByCode(code: Short): (r: Result<LexicalToken>)
      requires Valid()
      reads this
      ensures r.Ok? <==> exists i :: 0 <= i < |Tokens| && Tokens[i].Code == code
      ensures r.Ok? ==> r.value in Tokens && r.value.Code == code
      ensures r.Err? ==> r.msg == UnexpectedCode
    {
      if code !in CodeDictionary then Err(UnexpectedCode) else Ok(CodeDictionary[code])
    }

    /** `Add(token)`: refuses a token whose code or key is already taken,
        leaving everything as it was; otherwise indexes it under both and
        appends it to the list. The code is the caller's, never rewritten. */
    method Add(token: LexicalToken) returns (s: Status)
      requires Valid()
      modifies this
      ensures Valid()
      ensures s.Fail? <==> token.Code in old(CodeDictionary) || token.Key in old(KeyDictionary)
      ensures s.Fail? ==> s.msg == AlreadyContains
      ensures s.Fail? ==> Tokens == old(Tokens) && CodeDictionary == old(CodeDictionary) && KeyDictionary == old(KeyDictionary)
      ensures s.Pass? ==> Tokens == old(Tokens) + [token]
      ensures s.Pass? ==> CodeDictionary == old(CodeDictionary)[token.Code := token]
      ensures s.Pass? ==> KeyDictionary == old(KeyDictionary)[token.Key := token]
      ensures s.Pass? ==> ByKey(token.Key) == Ok(token) && ByCode(token.Code) == Ok(token)
    {
      if token.Code in CodeDictionary {
        return Fail(AlreadyContains);
      }
      if token.Key in KeyDictionary {
        return Fail(AlreadyContains);
      }
      SyncedAppend(CodeDictionary, KeyDictionary, Tokens, token);
      CardUpdate(CodeDictionary, token);
      CodeDictionary := CodeDictionary[token.Code := token];
      KeyDictionary := KeyDictionary[token.Key := token];
      Tokens := Tokens + [token];
      s := Pass;
    }

    /** `GetTokens()`: a new array of every registered token, in insertion
        order. */
    method GetTokens() returns (a: array<LexicalToken>)
      requires Valid()
      ensures fresh(a) && a[..] == Tokens
    {
      a := new LexicalToken[|CodeDictionary|];
      var i := 0;
      while i < |Tokens|
        invariant 0 <= i <= |Tokens|
        invariant a[..i] == Tokens[..i]
      {
        a[i] := Tokens[i];
        i := i + 1;
      }
      assert a[..] == a[..i];
    }

    /** `GetExpression(key)`: the expression of the token with that key. */
    function GetExpression(key: string): (r: Result<RegularExpression?>)
      requires Valid()
      reads this
      ensures r.Ok? <==> exists t :: t in Tokens && t.Key == key
      ensures r.Ok? ==> exists t :: t in Tokens && t.Key == key && t.Expression == r.value
      ensures r.Err? ==> r.msg == UnexpectedKey
    {
      match ByKey(key)
      case Ok(t) => Ok(t.Expression)
      case Err(m) => Err(m)
    }

    /** `GetExpression` as the lookup handed to `Link`; linking changes no
        key, so the lookup is fixed before the first expression is linked. */
    function Lookup(): (f: Linker)
      requires Valid()
      reads this
      ensures forall k :: f(k) == GetExpression(k)
    {
      LookupIn(KeyDictionary)
    }

    /** The expressions of the registered tokens. */
    ghost function Expressions(): set<RegularExpression>
      reads this
    {
      set t | t in Tokens && t.Expression != null :: t.Expression
    }

    /** The node tree of each expression. */
    ghost function BaseNodes(): (m: map<RegularExpression, Node>)
      reads this, Expressions()
      ensures m.Keys == Expressions()
    {
      map e | e in Expressions() :: e.BaseNode
    }

    /** Links the expression of the `i`-th token, which has one, in place:
        the trees are now those left once the first `i + 1` tokens have had
        their expressions linked. */
    method LinkToken(ghost nodes: map<RegularExpression, Node>, f: Linker, i: nat) returns (r: Status)
      requires i < |Tokens| && Tokens[i].Expression != null && Tokens[i].Expression in nodes
      requires BaseNodes() == LinkedTrees(Tokens, nodes, f, i)
      modifies Tokens[i].Expression
      ensures forall x :: x in nodes ==> x.Key == old(x.Key)
      ensures r == LinkNode(nodes[Tokens[i].Expression], f).status
      ensures BaseNodes() == LinkedTrees(Tokens, nodes, f, i + 1)
    {
      var e := Tokens[i].Expression;
      RegExLink.LinkIdempotent(nodes[e], f);
      label Before:
      r := e.Link(f);
      assert ExpressionsOf(Tokens, i + 1) == ExpressionsOf(Tokens, i) + {e};
      forall x | x in nodes
        ensures x.BaseNode == LinkedTrees(Tokens, nodes, f, i + 1)[x]
      {
        if x != e {
          assert x.BaseNode == old@Before(x.BaseNode) == old@Before(BaseNodes())[x];
        }
      }
    }

    /** `CreateExpressionReferences()`: links the expression of every token
        in order, stopping at a token without an expression or at the first
        key that is not registered (the token `StopIndex` names). The
        expressions of the tokens up to and including that one are linked by
        key lookup, the last one as far as its own walk got, and every other
        expression is as before. When it finishes, every expression is
        linked by key lookup. */
    method CreateExpressionReferences() returns (s: Status)
      modifies Expressions()
      ensures s == LinkingStatus(Tokens, old(BaseNodes()), LookupIn(KeyDictionary), 0)
      ensures forall e :: e in Expressions() ==> e.Key == old(e.Key)
      ensures BaseNodes() == LinkedTrees(Tokens, old(BaseNodes()), LookupIn(KeyDictionary),
        LinkReach(Tokens, old(BaseNodes()), LookupIn(KeyDictionary)))
      ensures forall e :: e in Expressions() ==>
        e.BaseNode == old(e.BaseNode) || e.BaseNode == LinkNode(old(e.BaseNode), LookupIn(KeyDictionary)).value
      ensures s.Pass? ==> forall e :: e in Expressions() ==>
        e.BaseNode == LinkNode(old(e.BaseNode), LookupIn(KeyDictionary)).value
        && RegExLink.LinkedBy(e.BaseNode, LookupIn(KeyDictionary))
    {
      var f := LookupIn(KeyDictionary);
      ghost var orig := BaseNodes();
      assert forall k :: 0 <= k < |Tokens| && Tokens[k].Expression != null ==> Tokens[k].Expression in orig;
      s := LinkTokens(orig, f);
      assert forall e :: e in Expressions() ==> e.BaseNode == BaseNodes()[e];
      if s.Pass? {
        StopIndexStatus(Tokens, orig, f, 0);
        AllLinked(Tokens, orig, f);
      }
    }

    /** The loop of `CreateExpressionReferences`, over the trees `nodes` the
        expressions hold when it starts. */
    method LinkTokens(ghost nodes: map<RegularExpression, Node>, f: Linker) returns (s: Status)
      requires nodes == BaseNodes()
      requires forall k :: 0 <= k < |Tokens| && Tokens[k].Expression != null ==> Tokens[k].Expression in nodes
      modifies Expressions()
      ensures s == LinkingStatus(Tokens, nodes, f, 0)
      ensures forall e :: e in nodes ==> e.Key == old(e.Key)
      ensures BaseNodes() == LinkedTrees(Tokens, nodes, f, LinkReach(Tokens, nodes, f))
    {
      var ts := Tokens;
      NothingLinkedYet(ts, nodes, f);
      var i := 0;
      while i < |ts|
        invariant 0 <= i <= |ts| && Tokens == ts
        invariant forall e :: e in nodes ==> e.Key == old(e.Key)
        invariant BaseNodes() == LinkedTrees(ts, nodes, f, i)
        invariant LinkingStatus(ts, nodes, f, 0) == LinkingStatus(ts, nodes, f, i)
        invariant StopIndex(ts, nodes, f, 0) == StopIndex(ts, nodes, f, i)
      {
        var e := ts[i].Expression;
        if e == null {
          NoExpressionLinksNothing(ts, nodes, f, i);
          assert LinkReach(ts, nodes, f) == i + 1;
          return Fail(NullReference);
        }
        var r := LinkToken(nodes, f, i);
        if r.Fail? {
          assert LinkReach(ts, nodes, f) == i + 1;
          return r;
        }
        i := i + 1;
      }
      s := Pass;
    }
  }

  /** The three collections of a dictionary hold the same tokens: each
      listed token is indexed under its code and its key, nothing else is
      indexed, and no two listed tokens share a code or a key. */
  predicate Synced(codes: map<Short, LexicalToken>, keys: map<string, LexicalToken>, tokens: seq<LexicalToken>)
  {
    && codes.Keys == CodesOf(tokens)
    && keys.Keys == KeysOf(tokens)
    && (forall t :: t in tokens ==> codes[t.Code] == t && keys[t.Key] == t)
    && (forall i, j :: 0 <= i < j < |tokens| ==> tokens[i].Code != tokens[j].Code && tokens[i].Key != tokens[j].Key)
  }

  function CodesOf(tokens: seq<LexicalToken>): set<Short>
  {
    set t | t in tokens :: t.Code
  }

  function KeysOf(tokens: seq<LexicalToken>): set<string>
  {
    set t | t in tokens :: t.Key
  }

  /** Indexing a token whose code and key are both new, and appending it to
      the list, keeps the collections in step. */
  lemma SyncedAppend(codes: map<Short, LexicalToken>, keys: map<string, LexicalToken>, tokens: seq<LexicalToken>, t: LexicalToken)
    requires Synced(codes, keys, tokens) && t.Code !in codes && t.Key !in keys
    ensures Synced(codes[t.Code := t], keys[t.Key := t], tokens + [t])
  {
    AppendMembers(tokens, t);
    IndexAppend(codes, keys, tokens, t);
    DistinctAppend(codes, keys, tokens, t);
  }

  lemma CardUpdate(codes: map<Short, LexicalToken>, t: LexicalToken)
    requires t.Code !in codes
    ensures |codes[t.Code := t]| == |codes| + 1
  {
    assert codes[t.Code := t].Keys == codes.Keys + {t.Code};
  }

  lemma IndexAppend(codes: map<Short, LexicalToken>, keys: map<string, LexicalToken>, tokens: seq<LexicalToken>, t: LexicalToken)
    requires Synced(codes, keys, tokens) && t.Code !in codes && t.Key !in keys
    ensures forall u :: u in tokens + [t] ==> codes[t.Code := t][u.Code] == u && keys[t.Key := t][u.Key] == u
  {
    forall u | u in tokens + [t]
      ensures codes[t.Code := t][u.Code] == u && keys[t.Key := t][u.Key] == u
    {
      if u != t {
        assert u in tokens;
        assert u.Code in CodesOf(tokens) && u.Key in KeysOf(tokens);
      }
    }
  }

  lemma AppendMembers(tokens: seq<LexicalToken>, t: LexicalToken)
    ensures CodesOf(tokens + [t]) == CodesOf(tokens) + {t.Code}
    ensures KeysOf(tokens + [t]) == KeysOf(tokens) + {t.Key}
  {
    var ts := tokens + [t];
    assert forall u :: u in ts <==> u in tokens || u == t;
  }

  lemma DistinctAppend(codes: map<Short, LexicalToken>, keys: map<string, LexicalToken>, tokens: seq<LexicalToken>, t: LexicalToken)
    requires Synced(codes, keys, tokens) && t.Code !in codes && t.Key !in keys
    ensures var ts := tokens + [t];
      forall i, j :: 0 <= i < j < |ts| ==> ts[i].Code != ts[j].Code && ts[i].Key != ts[j].Key
  {
    var ts := tokens + [t];
    forall i, j | 0 <= i < j < |ts|
      ensures ts[i].Code != ts[j].Code && ts[i].Key != ts[j].Key
    {
      if j == |tokens| {
        assert ts[i] in tokens;
        assert ts[i].Code in CodesOf(tokens) && ts[i].Key in KeysOf(tokens);
      } else {
        assert ts[i] == tokens[i] && ts[j] == tokens[j];
      }
    }
  }

  /** What `CreateExpressionReferences` reports for the tokens `ts` from the
      `i`-th on, whose expressions have the trees `nodes`: the failure of the
      first token without an expression or whose linking stops at an
      unknown key. */
  function LinkingStatus(ts: seq<LexicalToken>, nodes: map<RegularExpression, Node>, f: Linker, i: nat): Status
    requires i <= |ts| && forall k :: 0 <= k < |ts| && ts[k].Expression != null ==> ts[k].Expression in nodes
    decreases |ts| - i
  {
    if i == |ts| then Pass
    else if ts[i].Expression == null then Fail(NullReference)
    else
      match LinkNode(nodes[ts[i].Expression], f).status
      case Fail(m) => Fail(m)
      case Pass => LinkingStatus(ts, nodes, f, i + 1)
  }

  /** The expressions of the first `n` tokens of `ts`. */
  function ExpressionsOf(ts: seq<LexicalToken>, n: nat): set<RegularExpression?>
    requires n <= |ts|
  {
    if n == 0 then {} else ExpressionsOf(ts, n - 1) + {ts[n - 1].Expression}
  }

  /** The `j`-th token's expression is among those of the first `n`. */
  lemma {:induction false} ExpressionsOfHas(ts: seq<LexicalToken>, n: nat, j: nat)
    requires j < n <= |ts|
    ensures ts[j].Expression in ExpressionsOf(ts, n)
    decreases n
  {
    if j < n - 1 {
      ExpressionsOfHas(ts, n - 1, j);
    }
  }

  /** Only the tokens' own expressions are among those of the first `n`. */
  lemma {:induction false} ExpressionsOfOnly(ts: seq<LexicalToken>, n: nat, e: RegularExpression?)
    requires n <= |ts| && forall j :: 0 <= j < n ==> ts[j].Expression != e
    ensures e !in ExpressionsOf(ts, n)
  {
    if n > 0 {
      ExpressionsOfOnly(ts, n - 1, e);
    }
  }

  /** The index of the token at which linking the tokens of `ts` from the
      `i`-th on stops: the first without an expression or whose linking
      fails, or the number of tokens when there is none. */
  function StopIndex(ts: seq<LexicalToken>, nodes: map<RegularExpression, Node>, f: Linker, i: nat): (k: nat)
    requires i <= |ts| && forall k :: 0 <= k < |ts| && ts[k].Expression != null ==> ts[k].Expression in nodes
    ensures i <= k <= |ts|
    decreases |ts| - i
  {
    if i == |ts| || ts[i].Expression == null || LinkNode(nodes[ts[i].Expression], f).status.Fail? then i
    else StopIndex(ts, nodes, f, i + 1)
  }

  /** How many tokens have their expressions linked, in full or in part,
      once `CreateExpressionReferences` returns: those before the stop and
      the one it stops at. */
  function LinkReach(ts: seq<LexicalToken>, nodes: map<RegularExpression, Node>, f: Linker): (n: nat)
    requires forall k :: 0 <= k < |ts| && ts[k].Expression != null ==> ts[k].Expression in nodes
    ensures n <= |ts|
  {
    var k := StopIndex(ts, nodes, f, 0);
    if k == |ts| then k else k + 1
  }

  /** Linking passes exactly when it stops after the last token; otherwise
      it reports the failure of the token it stops at, every token before
      which has an expression that links. */
  lemma {:induction false} StopIndexStatus(ts: seq<LexicalToken>, nodes: map<RegularExpression, Node>, f: Linker, i: nat)
    requires i <= |ts| && forall k :: 0 <= k < |ts| && ts[k].Expression != null ==> ts[k].Expression in nodes
    ensures var k := StopIndex(ts, nodes, f, i);
      && (LinkingStatus(ts, nodes, f, i).Pass? <==> k == |ts|)
      && (k < |ts| ==>
            LinkingStatus(ts, nodes, f, i) ==
            if ts[k].Expression == null then Fail(NullReference) else LinkNode(nodes[ts[k].Expression], f).status)
    decreases |ts| - i
  {
    if i < |ts| && ts[i].Expression != null && LinkNode(nodes[ts[i].Expression], f).status.Pass? {
      StopIndexStatus(ts, nodes, f, i + 1);
    }
  }

  /** Every token before the stop has an expression, and linking it passes. */
  lemma {:induction false} BeforeStop(ts: seq<LexicalToken>, nodes: map<RegularExpression, Node>, f: Linker, i: nat, j: nat)
    requires i <= j < |ts| && forall k :: 0 <= k < |ts| && ts[k].Expression != null ==> ts[k].Expression in nodes
    requires j < StopIndex(ts, nodes, f, i)
    ensures ts[j].Expression != null && LinkNode(nodes[ts[j].Expression], f).status.Pass?
    decreases j - i
  {
    if j > i {
      BeforeStop(ts, nodes, f, i + 1, j);
    }
  }

  /** The lookup `GetExpression` performs on the key index `keys`. */
  function LookupIn(keys: map<string, LexicalToken>): (f: Linker)
    ensures forall k :: k in keys ==> f(k) == Ok(keys[k].Expression)
    ensures forall k :: k !in keys ==> f(k) == Err(UnexpectedKey)
  {
    k => if k in keys then Ok(keys[k].Expression) else Err(UnexpectedKey)
  }

  /** The trees of the expressions in `nodes` once the first `n` tokens of
      `ts` have had their expressions linked by `f`. */
  function LinkedTrees(ts: seq<LexicalToken>, nodes: map<RegularExpression, Node>, f: Linker, n: nat): (m: map<RegularExpression, Node>)
    requires n <= |ts|
    ensures m.Keys == nodes.Keys
  {
    map e | e in nodes :: if e in ExpressionsOf(ts, n) then LinkNode(nodes[e], f).value else nodes[e]
  }

  /** Before the first token every expression holds its own tree. */
  lemma NothingLinkedYet(ts: seq<LexicalToken>, nodes: map<RegularExpression, Node>, f: Linker)
    ensures LinkedTrees(ts, nodes, f, 0) == nodes
  {
  }

  /** A token without an expression links nothing. */
  lemma NoExpressionLinksNothing(ts: seq<LexicalToken>, nodes: map<RegularExpression, Node>, f: Linker, i: nat)
    requires i < |ts| && ts[i].Expression == null
    ensures LinkedTrees(ts, nodes, f, i + 1) == LinkedTrees(ts, nodes, f, i)
  {
    assert ExpressionsOf(ts, i + 1) == ExpressionsOf(ts, i) + {null};
  }

  /** The expression of each of the first `n` tokens holds its tree linked. */
  lemma LinkedBefore(ts: seq<LexicalToken>, nodes: map<RegularExpression, Node>, f: Linker, n: nat, j: nat)
    requires j < n <= |ts| && ts[j].Expression in nodes
    ensures LinkedTrees(ts, nodes, f, n)[ts[j].Expression] == LinkNode(nodes[ts[j].Expression], f).value
  {
    ExpressionsOfHas(ts, n, j);
  }

  /** An expression no one of the first `n` tokens has keeps its tree. */
  lemma UnlinkedAfter(ts: seq<LexicalToken>, nodes: map<RegularExpression, Node>, f: Linker, n: nat, e: RegularExpression)
    requires n <= |ts| && e in nodes && forall j :: 0 <= j < n ==> ts[j].Expression != e
    ensures LinkedTrees(ts, nodes, f, n)[e] == nodes[e]
  {
    ExpressionsOfOnly(ts, n, e);
  }

  /** When linking all the tokens passes, every expression is linked by key
      lookup. */
  lemma AllLinked(ts: seq<LexicalToken>, nodes: map<RegularExpression, Node>, f: Linker)
    requires nodes.Keys == set t | t in ts && t.Expression != null :: t.Expression
    requires forall k :: 0 <= k < |ts| && ts[k].Expression != null ==> ts[k].Expression in nodes
    requires LinkingStatus(ts, nodes, f, 0).Pass?
    ensures forall e :: e in nodes ==>
      LinkedTrees(ts, nodes, f, |ts|)[e] == LinkNode(nodes[e], f).value && RegExLink.LinkedBy(LinkedTrees(ts, nodes, f, |ts|)[e], f)
  {
    forall e | e in nodes
      ensures LinkedTrees(ts, nodes, f, |ts|)[e] == LinkNode(nodes[e], f).value && RegExLink.LinkedBy(LinkedTrees(ts, nodes, f, |ts|)[e], f)
    {
      var t :| t in ts && t.Expression == e;
      var j :| 0 <= j < |ts| && ts[j] == t;
      LinkingPassed(ts, nodes, f, 0, j);
      LinkedBefore(ts, nodes, f, |ts|, j);
      RegExLink.LinkSetsAll(nodes[e], f);
    }
  }

  /** When linking the tokens from the `i`-th on passes, linking each of
      their trees passes. */
  lemma {:induction false} LinkingPassed(ts: seq<LexicalToken>, nodes: map<RegularExpression, Node>, f: Linker, i: nat, j: nat)
    requires i <= j < |ts| && forall k :: 0 <= k < |ts| && ts[k].Expression != null ==> ts[k].Expression in nodes
    requires LinkingStatus(ts, nodes, f, i).Pass?
    ensures ts[j].Expression != null && LinkNode(nodes[ts[j].Expression], f).status.Pass?
    decreases j - i
  {
    if j > i {
      LinkingPassed(ts, nodes, f, i + 1, j);
    }
  }
}
