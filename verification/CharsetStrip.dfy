/**
  The charset-directive rewrite of lib/Compiler.js, line 48:

      css.replace(/@charset "[\S]+";/gi, "")

  modelled as an explicit left-to-right scanner over the text.  The regular
  expression carries the `g` and `i` flags and no `u` flag, so

  - only ASCII letters fold case (ECMAScript's non-Unicode Canonicalize maps a
    character through upper-casing but refuses any non-ASCII character that
    would fold onto an ASCII one, so no non-ASCII character matches a letter of
    `charset`);
  - `\S` is any character outside ECMAScript's WhiteSpace and LineTerminator
    sets;
  - `[\S]+` is greedy, so after the opening `@charset "` it first takes the
    whole run of non-space characters and then backs off until a `";` follows:
    the match ends at the LAST `";` inside that run that has at least one
    character in front of it;
  - after a match the search resumes at its end, otherwise one character on.
*/
module CharsetStrip {
  import opened Wrappers
  import SeqFacts

  /** The literal that opens a directive, in lower case. */
  const Opening: string := "@charset \""

  /** ECMAScript's case folding as seen by a non-Unicode regular expression,
      restricted to what the pattern's letters can meet: ASCII letters only. */
  function LowerAscii(c: char): char
  {
    if 'A' <= c <= 'Z' then (c as int + 32) as char else c
  }

  predicate IsAsciiLetter(c: char)
  {
    'A' <= c <= 'Z' || 'a' <= c <= 'z'
  }

  /** Two characters fold together exactly when they are equal or are the
      upper- and lower-case forms of one ASCII letter. */
  lemma LowerAsciiIdentifiesOnlyAsciiCase(c: char, d: char)
    ensures LowerAscii(c) == LowerAscii(d) <==>
      || c == d
      || (IsAsciiLetter(c) && IsAsciiLetter(d) && (c as int - d as int == 32 || d as int - c as int == 32))
  {
  }

  /** ECMAScript `\s`: the WhiteSpace and LineTerminator code points. */
  predicate IsSpace(c: char)
  {
    || c == '\t' || c == '\n' || c == '\U{000B}' || c == '\U{000C}' || c == '\r'
    || c == ' ' || c == '\U{00A0}' || c == '\U{1680}'
    || ('\U{2000}' <= c <= '\U{200A}')
    || c == '\U{2028}' || c == '\U{2029}' || c == '\U{202F}' || c == '\U{205F}'
    || c == '\U{3000}' || c == '\U{FEFF}'
  }

  /** A case-insensitive `@charset "` starts at index i of s. */
  predicate OpensAt(s: string, i: nat)
  {
    i + |Opening| <= |s| &&
    forall k :: 0 <= k < |Opening| ==> LowerAscii(s[i + k]) == Opening[k]
  }

  /** The two characters just before index j are `";`. */
  predicate ClosesAt(s: string, j: nat)
  {
    2 <= j <= |s| && s[j - 2] == '"' && s[j - 1] == ';'
  }

  /** s[i..j] is matched by `@charset "[\S]+";` (case-insensitively): the
      opening, then at least one non-space character, then `";`. */
  predicate IsMatch(s: string, i: nat, j: nat)
  {
    && OpensAt(s, i)
    && i + |Opening| + 1 <= j - 2
    && ClosesAt(s, j)
    && forall k {:trigger IsSpace(s[k])} :: i + |Opening| <= k < j - 2 ==> !IsSpace(s[k])
  }

  /** The end of the maximal run of non-space characters starting at p. */
  function RunEnd(s: string, p: nat): (e: nat)
    requires p <= |s|
    ensures p <= e <= |s|
    ensures forall k {:trigger IsSpace(s[k])} :: p <= k < e ==> !IsSpace(s[k])
    ensures e == |s| || IsSpace(s[e])
    decreases |s| - p
  {
    if p == |s| || IsSpace(s[p]) then p else RunEnd(s, p + 1)
  }

  /** The largest end j in [lo + 2, hi] with `";` just before it: where the
      greedy `[\S]+` stops backing off. */
  function LastClose(s: string, lo: nat, hi: nat): (r: Option<nat>)
    requires hi <= |s|
    ensures r.Some? ==> lo + 2 <= r.value <= hi && ClosesAt(s, r.value)
    ensures r.Some? ==> forall j :: r.value < j <= hi ==> !ClosesAt(s, j)
    ensures r.None? ==> forall j :: lo + 2 <= j <= hi ==> !ClosesAt(s, j)
    decreases hi
  {
    if hi < lo + 2 then None
    else if ClosesAt(s, hi) then Some(hi)
    else LastClose(s, lo, hi - 1)
  }

  /** Every match starting at i lies inside the non-space run after the opening. */
  lemma MatchWithinRun(s: string, i: nat, j: nat)
    requires IsMatch(s, i, j)
    ensures j <= RunEnd(s, i + |Opening|)
  {
  }

  /** Backing off from the end of the run finds the longest match, and
      finding nothing means there is no match. */
  lemma GreedyClose(s: string, i: nat, r: Option<nat>)
    requires OpensAt(s, i)
    requires r == LastClose(s, i + |Opening| + 1, RunEnd(s, i + |Opening|))
    ensures r.Some? ==> IsMatch(s, i, r.value)
    ensures r.Some? ==> forall j: nat :: IsMatch(s, i, j) ==> j <= r.value
    ensures r.None? ==> forall j: nat :: !IsMatch(s, i, j)
  {
    var e := RunEnd(s, i + |Opening|);
    forall j: nat | IsMatch(s, i, j)
      ensures j <= e && i + |Opening| + 3 <= j && ClosesAt(s, j)
    {
      MatchWithinRun(s, i, j);
    }
  }

  /** The end of the match the regular expression finds at index i, if any:
      the longest of all matches starting there. */
  function MatchEnd(s: string, i: nat): (r: Option<nat>)
    requires i <= |s|
    ensures r.Some? ==> IsMatch(s, i, r.value)
    ensures r.Some? ==> forall j: nat :: IsMatch(s, i, j) ==> j <= r.value
    ensures r.None? <==> forall j: nat :: !IsMatch(s, i, j)
  {
    if OpensAt(s, i) then
      var r := LastClose(s, i + |Opening| + 1, RunEnd(s, i + |Opening|));
      GreedyClose(s, i, r);
      r
    else
      None
  }

  /** Scans s from index i, dropping every match found and keeping every
      other character. */
  function StripFrom(s: string, i: nat): (r: string)
    requires i <= |s|
    ensures |r| <= |s| - i
    decreases |s| - i
  {
    if i == |s| then ""
    else match MatchEnd(s, i)
      case Some(j) => StripFrom(s, j)
      case None => [s[i]] + StripFrom(s, i + 1)
  }

  /** One scanner step where no match starts at i: the character is kept. */
  lemma StripStepKeep(s: string, i: nat)
    requires i < |s| && MatchEnd(s, i).None?
    ensures StripFrom(s, i) == [s[i]] + StripFrom(s, i + 1)
  {
  }

  /** One scanner step where a match s[i..j] is found: it is dropped. */
  lemma StripStepDrop(s: string, i: nat, j: nat)
    requires i < |s| && MatchEnd(s, i) == Some(j)
    ensures j <= |s|
    ensures StripFrom(s, i) == StripFrom(s, j)
  {
  }

  /** `css.replace(/@charset "[\S]+";/gi, "")`. */
  function Strip(s: string): (r: string)
    ensures |r| <= |s|
  {
    StripFrom(s, 0)
  }

  /** a can be obtained from b by deleting characters. */
  predicate IsSubsequence(a: string, b: string)
    decreases |b|
  {
    |a| == 0 ||
    (|b| > 0 && ((a[0] == b[0] && IsSubsequence(a[1..], b[1..])) || IsSubsequence(a, b[1..])))
  }

  lemma {:induction false} SubsequenceOfSuffix(a: string, b: string, k: nat)
    requires k <= |b|
    requires IsSubsequence(a, b[k..])
    ensures IsSubsequence(a, b)
    decreases k
  {
    if k > 0 {
      assert b[1..][k - 1..] == b[k..];
      SubsequenceOfSuffix(a, b[1..], k - 1);
    }
  }

  /** Characters before the leftmost match are copied verbatim. */
  lemma {:induction false} StripKeepsUnmatched(s: string, i: nat, k: nat)
    requires i <= k <= |s|
    requires forall m: nat, j: nat :: i <= m < k ==> !IsMatch(s, m, j)
    ensures StripFrom(s, i) == s[i..k] + StripFrom(s, k)
  {
    forall m: nat | i <= m < k
      ensures MatchEnd(s, m).None?
    {
    }
    KeepUntil(s, i, k);
  }

  lemma {:induction false} KeepUntil(s: string, i: nat, k: nat)
    requires i <= k <= |s|
    requires forall m: nat :: i <= m < k ==> MatchEnd(s, m).None?
    ensures StripFrom(s, i) == s[i..k] + StripFrom(s, k)
    decreases k - i
  {
    if i < k {
      StripStepKeep(s, i);
      KeepUntil(s, i + 1, k);
      assert s[i..k] == [s[i]] + s[i + 1..k];
      SeqFacts.ConsAppend(s[i], s[i + 1..k], StripFrom(s, k));
    }
  }

  /** The scanner's contract: from index i it keeps everything before the
      leftmost match start m, removes the longest match at m, and carries on
      after it. */
  lemma StripAtLeftmostMatch(s: string, i: nat, m: nat, j: nat)
    requires i <= m
    requires forall m': nat, j': nat :: i <= m' < m ==> !IsMatch(s, m', j')
    requires IsMatch(s, m, j)
    requires forall j': nat :: IsMatch(s, m, j') ==> j' <= j
    ensures j <= |s|
    ensures StripFrom(s, i) == s[i..m] + StripFrom(s, j)
  {
    StripKeepsUnmatched(s, i, m);
    LongestMatchIsFound(s, m, j);
    StripStepDrop(s, m, j);
  }

  /** The scanner reports the longest match at an index. */
  lemma LongestMatchIsFound(s: string, m: nat, j: nat)
    requires IsMatch(s, m, j)
    requires forall j': nat :: IsMatch(s, m, j') ==> j' <= j
    ensures MatchEnd(s, m) == Some(j)
  {
    assert MatchEnd(s, m).Some?;
  }

  /** Stripping only deletes characters: what remains keeps its order. */
  lemma {:induction false} StripIsSubsequence(s: string, i: nat)
    requires i <= |s|
    ensures IsSubsequence(StripFrom(s, i), s[i..])
    decreases |s| - i
  {
    if i < |s| {
      match MatchEnd(s, i)
      case Some(j) =>
        StripStepDrop(s, i, j);
        StripIsSubsequence(s, j);
        assert s[i..][j - i..] == s[j..];
        SubsequenceOfSuffix(StripFrom(s, j), s[i..], j - i);
      case None =>
        StripStepKeep(s, i);
        StripIsSubsequence(s, i + 1);
        assert s[i..][1..] == s[i + 1..];
    }
  }

  /** Text with no case-insensitive `@charset "` anywhere comes back unchanged. */
  lemma StripWithoutOpeningIsIdentity(s: string)
    requires forall i: nat :: !OpensAt(s, i)
    ensures Strip(s) == s
  {
    StripKeepsUnmatched(s, 0, |s|);
  }

  /** The first index from i on where the scanner finds a match, given
      that one starts at m. */
  function FirstFound(s: string, i: nat, m: nat, j: nat): (r: nat)
    requires i <= m && IsMatch(s, m, j)
    ensures i <= r <= m && MatchEnd(s, r).Some?
    ensures forall x: nat :: i <= x < r ==> MatchEnd(s, x).None?
    decreases m - i
  {
    if MatchEnd(s, i).Some? then i
    else
      assert i != m by {
        assert !IsMatch(s, i, j);
      }
      FirstFound(s, i + 1, m, j)
  }

  /** When the text holds any match at all, at least one whole match (at
      least the 13 characters of `@charset "x";`) disappears. */
  lemma StripRemovesSomeMatch(s: string, i: nat, m: nat, j: nat)
    requires i <= m
    requires IsMatch(s, m, j)
    ensures |StripFrom(s, i)| <= |s| - i - 13
  {
    var f := FirstFound(s, i, m, j);
    KeepUntil(s, i, f);
    DroppedMatchShrinks(s, f, MatchEnd(s, f).value);
  }

  /** A dropped match takes at least 13 characters with it. */
  lemma DroppedMatchShrinks(s: string, i: nat, j: nat)
    requires i < |s| && MatchEnd(s, i) == Some(j)
    ensures |StripFrom(s, i)| <= |s| - i - 13
  {
    assert IsMatch(s, i, j);
    StripStepDrop(s, i, j);
  }

  /** A single pass can assemble a new directive: removing the inner match of
      `@cha@charset "x";rset "y";` joins its neighbours into `@charset "y";`. */
  lemma StripCanLeaveDirective()
    ensures Strip(Nested) == Rejoined
    ensures IsMatch(Rejoined, 0, |Rejoined|)
  {
    NestedHead();
    NestedTail();
    NestedRejoins();
    RejoinedMatches();
  }

  const Nested: string := "@cha@charset \"x\";rset \"y\";"
  const Rejoined: string := "@charset \"y\";"

  lemma NestedRejoins()
    ensures Nested[0..4] + Nested[17..26] == Rejoined
  {
  }

  lemma RejoinedMatches()
    ensures IsMatch(Rejoined, 0, |Rejoined|)
  {
    assert |Rejoined| == 13;
    assert Rejoined[0..10] == Opening;
    assert !IsSpace(Rejoined[10]);
  }

  lemma NestedLeftmost()
    ensures |Nested| == 26
    ensures forall m: nat, j: nat :: 0 <= m < 4 ==> !IsMatch(Nested, m, j)
  {
    forall m: nat, j: nat | 0 <= m < 4
      ensures !IsMatch(Nested, m, j)
    {
      if m == 0 {
        assert LowerAscii(Nested[4]) != Opening[4];
      } else {
        assert LowerAscii(Nested[m]) != Opening[0];
      }
    }
  }

  lemma NestedOpens()
    ensures OpensAt(Nested, 4)
  {
    assert |Nested| == 26;
  }

  lemma NestedGreedy()
    ensures IsMatch(Nested, 4, 17)
    ensures forall j: nat :: IsMatch(Nested, 4, j) ==> j <= 17
  {
    NestedOpens();
    assert |Nested| == 26 && Nested[14] == 'x' && Nested[15] == '"' && Nested[16] == ';';
    forall j: nat | IsMatch(Nested, 4, j)
      ensures j <= 17
    {
      if j >= 24 {
        assert IsSpace(Nested[21]);
      }
    }
  }

  lemma NestedHead()
    ensures Strip(Nested) == Nested[0..4] + StripFrom(Nested, 17)
  {
    NestedLeftmost();
    NestedGreedy();
    StripAtLeftmostMatch(Nested, 0, 4, 17);
  }

  lemma NestedTail()
    ensures StripFrom(Nested, 17) == Nested[17..26]
  {
    StripKeepsUnmatched(Nested, 17, 26);
  }

  /** Where the regular-expression engine finds a match at index i, written
      as loops: take the whole non-space run after the opening, then back
      off to the last `";`. */
  method FindMatch(s: string, i: nat) returns (found: Option<nat>)
    requires i <= |s|
    ensures found == MatchEnd(s, i)
  {
    found := None;
    if OpensAt(s, i) {
      var p := i + |Opening|;
      var e := p;
      while e < |s| && !IsSpace(s[e])
        invariant p <= e <= |s|
        invariant forall k {:trigger IsSpace(s[k])} :: p <= k < e ==> !IsSpace(s[k])
        decreases |s| - e
      {
        e := e + 1;
      }
      var j := e;
      while j >= p + 3 && !ClosesAt(s, j)
        invariant j <= e
        invariant forall j': nat :: j < j' <= e ==> !ClosesAt(s, j')
        decreases j
      {
        j := j - 1;
      }
      if j >= p + 3 {
        assert IsMatch(s, i, j);
        found := Some(j);
      }
    }
  }

  /** The global replace as a loop over the text. */
  method StripScan(s: string) returns (r: string)
    ensures r == Strip(s)
  {
    r := "";
    var i := 0;
    while i < |s|
      invariant i <= |s|
      invariant r + StripFrom(s, i) == Strip(s)
      decreases |s| - i
    {
      var found := FindMatch(s, i);
      match found
      case Some(j) =>
        StripStepDrop(s, i, j);
        i := j;
      case None =>
        StripStepKeep(s, i);
        r := r + [s[i]];
        i := i + 1;
    }
  }
}
