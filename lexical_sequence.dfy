/** `ScannedTokenSequence`: the tokens one scan of a text produces, built by
    driving the dictionary's scanner over the text, and their rendering. */
module LexicalSequence {
  import opened Errors
  import opened LexicalTokens
  import opened LexicalDictionary

  const Unscannable := "Unable to find scannable token."

  /** The pseudo-token codes the scanner returns. */
  const WhitespaceCode := -1
  const TabCode := -2
  const NewlineCode := -3
  const ErrorCode := -4
  const FinishedCode := -5

  /** What `ScanNext(text, captureIndex)` returns: where the token starts
      (after skipped characters), where the scan goes on, and the token. */
  datatype ScanResult = ScanResult(from: int, next: int, token: LexicalToken)

  /** `ScanNext` of the dictionary the sequence is built from. */
  type Scanner = (string, int) -> ScanResult

  /** `KeepWhitespaceTokens`, `KeepTabTokens` and `KeepNewlineTokens`. */
  datatype Retention = Retention(whitespace: bool, tab: bool, newline: bool)

  /** What the loop needs of one scanner step at `at`: unless it reports an
      error or the end, the token lies at or after `at`, is not empty and
      ends inside the text. */
  predicate StepAdvances(r: ScanResult, at: int, n: int)
  {
    r.token.Code == ErrorCode || r.token.Code == FinishedCode || at <= r.from < r.next <= n
  }

  /** Every scanner step inside `text` advances. */
  predicate Advances(scan: Scanner, text: string)
  {
    forall i :: 0 <= i < |text| ==> StepAdvances(scan(text, i), i, |text|)
  }

  /** Whether a token with this code goes into the sequence: whitespace,
      tabs and newlines only when they are retained, every other token
      always. */
  predicate Kept(code: int, keep: Retention)
  {
    if code == WhitespaceCode then keep.whitespace
    else if code == TabCode then keep.tab
    else if code == NewlineCode then keep.newline
    else true
  }

  /** The entry for `token` matched over `text[from..next]`: the text is
      kept only when the token does not discard it. */
  function Entry(token: LexicalToken, text: string, from: int, next: int): LexicalScanToken
    requires 0 <= from <= next <= |text|
  {
    NewScanToken(token, if token.GenericCapture then None else Some(text[from..next]))
  }

  /** The tokens the `CreateFrom` loop collects from position `i` on, or the
      error that ends it. */
  function ScanFrom(text: string, scan: Scanner, keep: Retention, i: nat): Result<seq<LexicalScanToken>>
    requires Advances(scan, text)
    decreases |text| - i
  {
    if i >= |text| then Ok([])
    else
      var r := scan(text, i);
      if r.token.Code == ErrorCode then Err(Unscannable)
      else if r.token.Code == FinishedCode then Ok([])
      else
        var here := if Kept(r.token.Code, keep) then [Entry(r.token, text, r.from, r.next)] else [];
        Prepend(here, ScanFrom(text, scan, keep, r.next))
  }

  /** `xs` followed by the tokens of `r`, or the error of `r`. */
  function Prepend(xs: seq<LexicalScanToken>, r: Result<seq<LexicalScanToken>>): Result<seq<LexicalScanToken>>
  {
    match r
    case Ok(v) => Ok(xs + v)
    case Err(m) => Err(m)
  }

  lemma PrependEmpty(r: Result<seq<LexicalScanToken>>)
    ensures Prepend([], r) == r
  {
    if r.Ok? {
      assert [] + r.value == r.value;
    }
  }

  lemma PrependPrepend(xs: seq<LexicalScanToken>, ys: seq<LexicalScanToken>, r: Result<seq<LexicalScanToken>>)
    ensures Prepend(xs, Prepend(ys, r)) == Prepend(xs + ys, r)
  {
    if r.Ok? {
      assert xs + (ys + r.value) == (xs + ys) + r.value;
    }
  }

  /** One token as `ToString` writes it: its key, then a space and the
      scanned text when that was kept. */
  function Item(t: LexicalScanToken): string
  {
    t.Key() + (if t.ScannedString.Some? then " " + t.ScannedString.value else "")
  }

  /** The text `ToString` accumulates over `toks`: each item is preceded by
      ", " unless the text so far is still empty. */
  function Render(toks: seq<LexicalScanToken>): string
    decreases |toks|
  {
    if toks == [] then ""
    else
      var prev := Render(toks[..|toks| - 1]);
      (if |prev| > 0 then prev + ", " else prev) + Item(toks[|toks| - 1])
  }

  class ScannedTokenSequence {
    var BaseDictionary: LexicalTokenDictionary
    var SequenceTokens: seq<LexicalScanToken>

    constructor (baseDictionary: LexicalTokenDictionary)
      ensures BaseDictionary == baseDictionary && SequenceTokens == []
    {
      BaseDictionary := baseDictionary;
      SequenceTokens := [];
    }

    /** `Append(token, scannedString)`: one new entry at the end. */
    method Append(token: LexicalToken, scannedString: Option<string>)
      modifies this
      ensures BaseDictionary == old(BaseDictionary)
      ensures SequenceTokens == old(SequenceTokens) + [NewScanToken(token, scannedString)]
    {
      SequenceTokens := SequenceTokens + [NewScanToken(token, scannedString)];
    }

    /** `CreateFrom(tokenDictionary, text)`: scans `text` from its start,
        appending each token the scanner finds (whitespace, tabs and newlines
        only when retained) until the text or the scanner is finished; the
        error pseudo-token throws. */
    static method CreateFrom(tokenDictionary: LexicalTokenDictionary, text: string, scan: Scanner, keep: Retention)
      returns (r: Result<ScannedTokenSequence>)
      requires Advances(scan, text)
      ensures r.Ok? <==> ScanFrom(text, scan, keep, 0).Ok?
      ensures r.Ok? ==> fresh(r.value) && r.value.BaseDictionary == tokenDictionary
      ensures r.Ok? ==> r.value.SequenceTokens == ScanFrom(text, scan, keep, 0).value
      ensures r.Err? ==> r.msg == ScanFrom(text, scan, keep, 0).msg
    {
      var sq := new ScannedTokenSequence(tokenDictionary);
      var captureIndex := 0;
      PrependEmpty(ScanFrom(text, scan, keep, 0));
      while captureIndex < |text|
        invariant 0 <= captureIndex
        invariant fresh(sq) && sq.BaseDictionary == tokenDictionary
        invariant ScanFrom(text, scan, keep, 0) == Prepend(sq.SequenceTokens, ScanFrom(text, scan, keep, captureIndex))
        decreases |text| - captureIndex
      {
        ghost var at := captureIndex;
        ghost var before := sq.SequenceTokens;
        var step := scan(text, captureIndex);
        var from, next, token := step.from, step.next, step.token;
        captureIndex := from;
        if token.Code == WhitespaceCode {
          if keep.whitespace {
            sq.Append(token, if token.GenericCapture then None else Some(text[captureIndex..next]));
          }
        } else if token.Code == TabCode {
          if keep.tab {
            sq.Append(token, if token.GenericCapture then None else Some(text[captureIndex..next]));
          }
        } else if token.Code == NewlineCode {
          if keep.newline {
            sq.Append(token, if token.GenericCapture then None else Some(text[captureIndex..next]));
          }
        } else if token.Code == ErrorCode {
          return Err(Unscannable);
        } else if token.Code == FinishedCode {
          assert ScanFrom(text, scan, keep, at) == Ok([]);
          assert sq.SequenceTokens + [] == sq.SequenceTokens;
          break;
        } else {
          sq.Append(token, if token.GenericCapture then None else Some(text[captureIndex..next]));
        }
        ghost var here := if Kept(token.Code, keep) then [Entry(token, text, from, next)] else [];
        assert sq.SequenceTokens == before + here;
        PrependPrepend(before, here, ScanFrom(text, scan, keep, next));
        captureIndex := next;
      }
      return Ok(sq);
    }

    /** `ToString()`: the keys joined by ", ", each followed by a space and
        its scanned text when that was kept. */
    method ToString() returns (txt: string)
      ensures txt == Render(SequenceTokens)
    {
      txt := "";
      for k := 0 to |SequenceTokens|
        invariant txt == Render(SequenceTokens[..k])
      {
        var token := SequenceTokens[k];
        assert SequenceTokens[..k + 1][..k] == SequenceTokens[..k];
        if |txt| > 0 {
          txt := txt + ", ";
        }
        txt := txt + token.Key();
        if token.ScannedString.Some? {
          txt := txt + " " + token.ScannedString.value;
        }
      }
      assert SequenceTokens[..|SequenceTokens|] == SequenceTokens;
    }
  }

  // ---------------------------------------------------------------------
  // Properties of a scan
  // ---------------------------------------------------------------------

  /** `s` occurs in `text`. */
  predicate IsInfix(s: string, text: string)
  {
    exists a, b :: 0 <= a <= b <= |text| && text[a..b] == s
  }

  /** An entry a scan may produce: never a sentinel, a whitespace, tab or
      newline token only when retained, and a scanned text exactly when the
      token keeps it, that text being a non-empty piece of the input. */
  predicate WellScanned(x: LexicalScanToken, text: string, keep: Retention)
  {
    && x.Token.Code != ErrorCode && x.Token.Code != FinishedCode
    && Kept(x.Token.Code, keep)
    && (x.ScannedString.Some? <==> !x.Token.GenericCapture)
    && (x.ScannedString.Some? ==> |x.ScannedString.value| > 0 && IsInfix(x.ScannedString.value, text))
  }

  /** Every entry of a scan is well scanned. */
  lemma {:induction false} ScanEntries(text: string, scan: Scanner, keep: Retention, i: nat)
    requires Advances(scan, text)
    ensures ScanFrom(text, scan, keep, i).Ok? ==>
      forall x :: x in ScanFrom(text, scan, keep, i).value ==> WellScanned(x, text, keep)
    decreases |text| - i
  {
    if i < |text| {
      var r := scan(text, i);
      if r.token.Code != ErrorCode && r.token.Code != FinishedCode {
        ScanEntries(text, scan, keep, r.next);
        var e := Entry(r.token, text, r.from, r.next);
        if e.ScannedString.Some? {
          var v := e.ScannedString.value;
          assert IsInfix(v, text);
        }
        if Kept(r.token.Code, keep) {
          assert WellScanned(e, text, keep);
        }
      }
    }
  }

  /** A scan fails only with "Unable to find scannable token.", and it
      does not fail when the scanner never reports an error. */
  lemma {:induction false} ScanErrors(text: string, scan: Scanner, keep: Retention, i: nat)
    requires Advances(scan, text)
    ensures ScanFrom(text, scan, keep, i).Err? ==> ScanFrom(text, scan, keep, i).msg == Unscannable
    ensures (forall j :: i <= j < |text| ==> scan(text, j).token.Code != ErrorCode) ==> ScanFrom(text, scan, keep, i).Ok?
    decreases |text| - i
  {
    if i < |text| {
      var r := scan(text, i);
      if r.token.Code != ErrorCode && r.token.Code != FinishedCode {
        ScanErrors(text, scan, keep, r.next);
      }
    }
  }

  /** Each entry consumes at least one character, so a scan has at most as
      many entries as characters left; an empty text scans to nothing. */
  lemma {:induction false} ScanLength(text: string, scan: Scanner, keep: Retention, i: nat)
    requires Advances(scan, text) && i <= |text|
    ensures ScanFrom(text, scan, keep, i).Ok? ==> |ScanFrom(text, scan, keep, i).value| <= |text| - i
    decreases |text| - i
  {
    if i < |text| {
      var r := scan(text, i);
      if r.token.Code != ErrorCode && r.token.Code != FinishedCode {
        ScanLength(text, scan, keep, r.next);
      }
    }
  }

  /** Every pseudo-token retained. */
  const KeepAll := Retention(true, true, true)

  /** The entries of `xs` that `keep` retains. */
  function Retained(xs: seq<LexicalScanToken>, keep: Retention): (r: seq<LexicalScanToken>)
    ensures |r| <= |xs|
  {
    if xs == [] then []
    else (if Kept(xs[0].Token.Code, keep) then [xs[0]] else []) + Retained(xs[1..], keep)
  }

  lemma {:induction false} RetainedAppend(xs: seq<LexicalScanToken>, ys: seq<LexicalScanToken>, keep: Retention)
    ensures Retained(xs + ys, keep) == Retained(xs, keep) + Retained(ys, keep)
  {
    if xs != [] {
      assert (xs + ys)[1..] == xs[1..] + ys;
      RetainedAppend(xs[1..], ys, keep);
    } else {
      assert xs + ys == ys;
    }
  }

  /** The retention flags only filter: a scan under any flags is the scan
      that retains everything, less the pseudo-tokens the flags drop. */
  lemma {:induction false} ScanRetention(text: string, scan: Scanner, keep: Retention, i: nat)
    requires Advances(scan, text)
    ensures ScanFrom(text, scan, keep, i) ==
      match ScanFrom(text, scan, KeepAll, i)
      case Ok(v) => Ok(Retained(v, keep))
      case Err(m) => Err(m)
    decreases |text| - i
  {
    if i < |text| {
      var r := scan(text, i);
      if r.token.Code != ErrorCode && r.token.Code != FinishedCode {
        ScanRetention(text, scan, keep, r.next);
        var all := ScanFrom(text, scan, KeepAll, r.next);
        if all.Ok? {
          var e := Entry(r.token, text, r.from, r.next);
          RetainedAppend([e], all.value, keep);
          assert [e][1..] == [];
        }
      }
    }
  }

  // ---------------------------------------------------------------------
  // Properties of the rendering
  // ---------------------------------------------------------------------

  /** The items of `toks` joined by ", ". */
  function Joined(toks: seq<LexicalScanToken>): string
  {
    if toks == [] then ""
    else if |toks| == 1 then Item(toks[0])
    else Item(toks[0]) + ", " + Joined(toks[1..])
  }

  lemma {:induction false} JoinedSnoc(toks: seq<LexicalScanToken>, t: LexicalScanToken)
    requires toks != []
    ensures Joined(toks + [t]) == Joined(toks) + ", " + Item(t)
    decreases |toks|
  {
    var ts := toks + [t];
    assert ts[1..] == toks[1..] + [t];
    if |toks| > 1 {
      JoinedSnoc(toks[1..], t);
    }
  }

  /** When every token has a key, `ToString` is the items joined by ", ". */
  lemma {:induction false} RenderJoined(toks: seq<LexicalScanToken>)
    requires forall i :: 0 <= i < |toks| ==> |toks[i].Key()| > 0
    ensures Render(toks) == Joined(toks)
    ensures toks != [] ==> |Render(toks)| > 0
    decreases |toks|
  {
    if toks != [] {
      var init := toks[..|toks| - 1];
      RenderJoined(init);
      if init != [] {
        JoinedSnoc(init, toks[|toks| - 1]);
        assert init + [toks[|toks| - 1]] == toks;
      }
    }
  }

  /** Without that, the separator goes missing: a first token with an
      empty key and no scanned text leaves no ", " before the second. */
  lemma RenderEmptyKey(a: LexicalScanToken, b: LexicalScanToken)
    requires a.Key() == "" && a.ScannedString.None?
    ensures Render([a, b]) == Item(b)
  {
    assert [a, b][..1] == [a];
    assert [a][..0] == [];
    assert Item(a) == "";
    assert Render([a]) == "";
  }
}
