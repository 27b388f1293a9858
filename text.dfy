/** The host string facilities the rule parser relies on: the whitespace
    classification of `char.IsWhiteSpace` and `String.Trim`. */
module Text {

  /** The characters `char.IsWhiteSpace` accepts in the ASCII and Latin-1
      range: tab, line feed, vertical tab, form feed, carriage return, space,
      next line and no-break space. */
  predicate IsWhiteSpace(c: char)
  {
    ('\U{9}' <= c <= '\U{D}') || c == ' ' || c == '\U{85}' || c == '\U{A0}'
  }

  /** `s` without its leading whitespace; `TrimStartSpec` says what that is. */
  function TrimStart(s: string): (r: string)
    ensures |r| <= |s|
  {
    if |s| > 0 && IsWhiteSpace(s[0]) then TrimStart(s[1..]) else s
  }

  /** `s` without its trailing whitespace; `TrimEndSpec` says what that is. */
  function TrimEnd(s: string): (r: string)
    ensures |r| <= |s|
  {
    if |s| > 0 && IsWhiteSpace(s[|s| - 1]) then TrimEnd(s[..|s| - 1]) else s
  }

  /** `String.Trim`: `s` without leading and trailing whitespace. */
  function Trim(s: string): (r: string)
    ensures |r| <= |s|
  {
    TrimEnd(TrimStart(s))
  }

  /** `TrimStart` drops a run of whitespace and keeps the rest of `s`, which
      starts with a character that is not whitespace. */
  lemma {:induction false} TrimStartSpec(s: string)
    ensures TrimStart(s) == s[|s| - |TrimStart(s)|..]
    ensures TrimStart(s) == [] || !IsWhiteSpace(TrimStart(s)[0])
    ensures forall i :: 0 <= i < |s| - |TrimStart(s)| ==> IsWhiteSpace(s[i])
    decreases |s|
  {
    if |s| > 0 && IsWhiteSpace(s[0]) {
      var t := s[1..];
      TrimStartSpec(t);
      assert TrimStart(s) == TrimStart(t);
      assert t[|t| - |TrimStart(t)|..] == s[|s| - |TrimStart(s)|..];
      forall i | 0 <= i < |s| - |TrimStart(s)|
        ensures IsWhiteSpace(s[i])
      {
        if i > 0 {
          assert s[i] == t[i - 1];
        }
      }
    }
  }

  /** `TrimEnd` drops a run of whitespace and keeps the beginning of `s`,
      which ends with a character that is not whitespace. */
  lemma {:induction false} TrimEndSpec(s: string)
    ensures TrimEnd(s) == s[..|TrimEnd(s)|]
    ensures TrimEnd(s) == [] || !IsWhiteSpace(TrimEnd(s)[|TrimEnd(s)| - 1])
    ensures forall i :: |TrimEnd(s)| <= i < |s| ==> IsWhiteSpace(s[i])
    decreases |s|
  {
    if |s| > 0 && IsWhiteSpace(s[|s| - 1]) {
      var t := s[..|s| - 1];
      TrimEndSpec(t);
      assert TrimEnd(s) == TrimEnd(t);
      assert t[..|TrimEnd(t)|] == s[..|TrimEnd(s)|];
      forall i | |TrimEnd(s)| <= i < |s|
        ensures IsWhiteSpace(s[i])
      {
        if i < |s| - 1 {
          assert s[i] == t[i];
        }
      }
    }
  }

  /** `Trim` leaves neither leading nor trailing whitespace. */
  lemma TrimSpec(s: string)
    ensures Trim(s) == [] || (!IsWhiteSpace(Trim(s)[0]) && !IsWhiteSpace(Trim(s)[|Trim(s)| - 1]))
  {
    var t := TrimStart(s);
    TrimStartSpec(s);
    TrimEndSpec(t);
    var r := TrimEnd(t);
    if |r| > 0 {
      assert r[0] == t[0];
    }
  }

  /** Trimming removes whitespace only at the ends: what is left is a
      contiguous part of `s`. */
  lemma TrimSlice(s: string)
    ensures |s| - |TrimStart(s)| + |Trim(s)| <= |s|
    ensures Trim(s) == s[|s| - |TrimStart(s)|..|s| - |TrimStart(s)| + |Trim(s)|]
  {
    var t := TrimStart(s);
    var k := |s| - |t|;
    TrimStartSpec(s);
    TrimEndSpec(t);
    assert t == s[k..];
    assert TrimEnd(t) == t[..|TrimEnd(t)|];
  }

  /** Trimming keeps every character that is not whitespace. */
  lemma TrimKeeps(s: string)
    ensures forall c :: c in s && !IsWhiteSpace(c) ==> c in Trim(s)
  {
    forall c | c in s && !IsWhiteSpace(c)
      ensures c in Trim(s)
    {
      var j :| 0 <= j < |s| && s[j] == c;
      TrimKeepsAt(s, j);
    }
  }

  /** A character that is not whitespace survives trimming in place. */
  lemma TrimKeepsAt(s: string, j: nat)
    requires j < |s| && !IsWhiteSpace(s[j])
    ensures |s| - |TrimStart(s)| <= j < |s| - |TrimStart(s)| + |Trim(s)|
    ensures Trim(s)[j - (|s| - |TrimStart(s)|)] == s[j]
  {
    var t := TrimStart(s);
    var k := |s| - |t|;
    TrimStartSpec(s);
    assert k <= j;
    assert t[j - k] == s[j] by {
      assert t == s[k..];
    }
    var r := TrimEnd(t);
    TrimEndSpec(t);
    assert j - k < |r|;
    assert r[j - k] == t[j - k] by {
      assert r == t[..|r|];
    }
  }

  /** Trimming twice is trimming once. */
  lemma TrimIdempotent(s: string)
    ensures Trim(Trim(s)) == Trim(s)
  {
    var t := Trim(s);
    TrimSpec(s);
    assert TrimStart(t) == t;
    assert TrimEnd(t) == t;
  }

  /** A string made only of whitespace trims to the empty string. */
  lemma {:induction false} TrimWhiteSpace(s: string)
    requires forall i :: 0 <= i < |s| ==> IsWhiteSpace(s[i])
    ensures Trim(s) == []
  {
    if |s| > 0 {
      TrimWhiteSpace(s[1..]);
      assert Trim(s) == Trim(s[1..]);
    }
  }
}
