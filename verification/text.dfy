/** Text normalisation and the plausibility predicate applied to candidate
    title and heading texts (`clean_text`, `base_checks`, `has_title_hint`
    in main.py). */
module Text {
  import opened Chars

  // ---------------------------------------------------------------------
  // Generic prefix/suffix trimming

  /** Drops the longest prefix whose characters all satisfy `p`. */
  function DropWhile(s: string, p: char -> bool): (r: string)
    ensures |r| <= |s| && r == s[|s| - |r|..]
    ensures forall i :: 0 <= i < |s| - |r| ==> p(s[i])
    ensures r == [] || !p(r[0])
  {
    if s != [] && p(s[0]) then
      var r := DropWhile(s[1..], p);
      assert s[1..][|s| - 1 - |r|..] == s[|s| - |r|..];
      r
    else s
  }

  /** Drops the longest suffix whose characters all satisfy `p`. */
  function DropWhileEnd(s: string, p: char -> bool): (r: string)
    ensures |r| <= |s| && r == s[..|r|]
    ensures forall i :: |r| <= i < |s| ==> p(s[i])
    ensures r == [] || !p(r[|r| - 1])
  {
    if s != [] && p(s[|s| - 1]) then DropWhileEnd(s[..|s| - 1], p) else s
  }

  /** The first word: the longest prefix without whitespace. */
  function TakeWord(s: string): (r: string)
    ensures |r| <= |s| && r == s[..|r|]
    ensures forall i :: 0 <= i < |r| ==> !IsWhitespace(r[i])
    ensures |r| == |s| || IsWhitespace(s[|r|])
  {
    if s != [] && !IsWhitespace(s[0]) then [s[0]] + TakeWord(s[1..]) else []
  }

  // ---------------------------------------------------------------------
  // Shape predicates of a normalised text

  predicate NoLeadingWs(s: string) {
    s == [] || !IsWhitespace(s[0])
  }

  predicate NoTrailingWs(s: string) {
    s == [] || !IsWhitespace(s[|s| - 1])
  }

  predicate NoDoubleWs(s: string) {
    forall i :: 0 < i < |s| ==> !(IsWhitespace(s[i - 1]) && IsWhitespace(s[i]))
  }

  predicate SpacesOnly(s: string) {
    forall i :: 0 <= i < |s| ==> IsWhitespace(s[i]) ==> s[i] == ' '
  }

  predicate NoWhitespace(s: string) {
    forall i :: 0 <= i < |s| ==> !IsWhitespace(s[i])
  }

  /** `b` differs from `a` at most in which whitespace character stands at
      a whitespace position. */
  predicate SameShape(a: string, b: string) {
    && |a| == |b|
    && forall i :: 0 <= i < |a| ==>
         && (IsWhitespace(a[i]) <==> IsWhitespace(b[i]))
         && (!IsWhitespace(a[i]) ==> a[i] == b[i])
  }

  /** Trimmed, single-spaced and spaces only: the shape of a cleaned text
      without the condition on its first character. */
  predicate Spaced(s: string) {
    NoLeadingWs(s) && NoTrailingWs(s) && NoDoubleWs(s) && SpacesOnly(s)
  }

  /** What `clean_text` guarantees of its result. */
  predicate Normalized(s: string) {
    && NoLeadingWs(s)
    && NoTrailingWs(s)
    && NoDoubleWs(s)
    && SpacesOnly(s)
    && (s == [] || !IsBullet(s[0]))
  }

  /** The non-whitespace content of a text, in order. */
  function NonWs(s: string): (r: string)
    ensures NoWhitespace(r)
    ensures |r| <= |s|
  {
    if s == [] then []
    else (if IsWhitespace(s[0]) then [] else [s[0]]) + NonWs(s[1..])
  }

  lemma {:induction false} NonWsAppend(a: string, b: string)
    ensures NonWs(a + b) == NonWs(a) + NonWs(b)
    decreases |a|
  {
    if a == [] {
      assert a + b == b;
    } else {
      assert (a + b)[0] == a[0];
      assert (a + b)[1..] == a[1..] + b;
      NonWsAppend(a[1..], b);
      assert NonWs(a + b) == (if IsWhitespace(a[0]) then [] else [a[0]]) + NonWs(a[1..] + b);
    }
  }

  lemma {:induction false} NonWsOfBlank(s: string)
    requires forall i :: 0 <= i < |s| ==> IsWhitespace(s[i])
    ensures NonWs(s) == []
    decreases |s|
  {
    if s != [] {
      NonWsOfBlank(s[1..]);
    }
  }

  lemma {:induction false} NonWsOfSolid(s: string)
    requires NoWhitespace(s)
    ensures NonWs(s) == s
    decreases |s|
  {
    if s != [] {
      NonWsOfSolid(s[1..]);
    }
  }

  lemma {:induction false} NonWsKeeps(s: string, i: int)
    requires 0 <= i < |s| && !IsWhitespace(s[i])
    ensures NonWs(s) != []
    decreases |s|
  {
    if i > 0 {
      NonWsKeeps(s[1..], i - 1);
    }
  }

  // ---------------------------------------------------------------------
  // The steps of clean_text

  /** `str.strip()`: whitespace removed from both ends. */
  function Strip(s: string): (r: string)
    ensures NoLeadingWs(r) && NoTrailingWs(r)
    ensures NonWs(r) == NonWs(s)
    ensures NoDoubleWs(s) ==> NoDoubleWs(r)
    ensures SpacesOnly(s) ==> SpacesOnly(r)
    ensures |r| <= |s|
    ensures NoLeadingWs(s) ==> r == s[..|r|]
    ensures NoLeadingWs(s) && NoTrailingWs(s) ==> r == s
  {
    StripKeepsShape(s);
    StripKeepsContent(s);
    DropWhileEnd(DropWhile(s, IsWhitespace), IsWhitespace)
  }

  lemma StripKeepsShape(s: string)
    ensures var r := DropWhileEnd(DropWhile(s, IsWhitespace), IsWhitespace);
      && (NoDoubleWs(s) ==> NoDoubleWs(r))
      && (SpacesOnly(s) ==> SpacesOnly(r))
      && (NoLeadingWs(s) ==> r == s[..|r|])
      && (NoLeadingWs(s) && NoTrailingWs(s) ==> r == s)
  {
    var a := DropWhile(s, IsWhitespace);
    var r := DropWhileEnd(a, IsWhitespace);
    var k := |s| - |a|;
    assert a == s[k..];
    assert r == a[..|r|];
    assert r == s[k..k + |r|];
    StripSlice(s, k, r);
  }

  lemma StripKeepsContent(s: string)
    ensures NonWs(DropWhileEnd(DropWhile(s, IsWhitespace), IsWhitespace)) == NonWs(s)
  {
    NonWsDropBlank(s);
    NonWsDropBlankEnd(DropWhile(s, IsWhitespace));
  }

  /** A slice of a text keeps the text's shape properties. */
  lemma StripSlice(s: string, k: nat, r: string)
    requires k + |r| <= |s| && r == s[k..k + |r|]
    ensures NoDoubleWs(s) ==> NoDoubleWs(r)
    ensures SpacesOnly(s) ==> SpacesOnly(r)
  {
    if NoDoubleWs(s) {
      forall i | 0 < i < |r|
        ensures !(IsWhitespace(r[i - 1]) && IsWhitespace(r[i]))
      {
        assert r[i - 1] == s[k + i - 1] && r[i] == s[k + i];
      }
    }
    if SpacesOnly(s) {
      forall i | 0 <= i < |r|
        ensures IsWhitespace(r[i]) ==> r[i] == ' '
      {
        assert r[i] == s[k + i];
      }
    }
  }

  lemma NonWsSplit(s: string, k: nat)
    requires k <= |s|
    ensures NonWs(s) == NonWs(s[..k]) + NonWs(s[k..])
  {
    assert s == s[..k] + s[k..];
    NonWsAppend(s[..k], s[k..]);
  }

  /** Dropping leading whitespace keeps the content. */
  lemma NonWsDropBlank(s: string)
    ensures NonWs(DropWhile(s, IsWhitespace)) == NonWs(s)
  {
    var a := DropWhile(s, IsWhitespace);
    var k := |s| - |a|;
    NonWsSplit(s, k);
    assert s[k..] == a;
    NonWsOfBlank(s[..k]);
  }

  /** Dropping trailing whitespace keeps the content. */
  lemma NonWsDropBlankEnd(a: string)
    ensures NonWs(DropWhileEnd(a, IsWhitespace)) == NonWs(a)
  {
    var r := DropWhileEnd(a, IsWhitespace);
    NonWsSplit(a, |r|);
    assert a[..|r|] == r;
    NonWsOfBlank(a[|r|..]);
  }

  /** Each newline becomes a space (`t.replace("\n", " ")`). */
  function ReplaceNewlines(s: string): (r: string)
    ensures |r| == |s|
    ensures forall i :: 0 <= i < |s| ==> IsBulletOrWhitespace(r[i]) == IsBulletOrWhitespace(s[i])
    ensures forall i :: 0 <= i < |s| ==> r[i] != '\n'
    ensures SameShape(s, r)
  {
    if s == [] then []
    else [if s[0] == '\n' then ' ' else s[0]] + ReplaceNewlines(s[1..])
  }

  /** `WS_RE.sub(" ", s)`: every maximal whitespace run becomes one space. */
  function Collapse(s: string): (r: string)
    ensures NoDoubleWs(r) && SpacesOnly(r)
    ensures NonWs(r) == NonWs(s)
    ensures |r| > 0 <==> |s| > 0
    ensures s != [] && !IsWhitespace(s[0]) ==> r[0] == s[0]
    ensures s != [] && IsWhitespace(s[0]) ==> r[0] == ' '
    decreases |s|
  {
    if s == [] then []
    else if IsWhitespace(s[0]) then
      var rest := DropWhile(s, IsWhitespace);
      var r := " " + Collapse(rest);
      NonWsDropBlank(s);
      NonWsAppend(" ", Collapse(rest));
      r
    else
      var r := [s[0]] + Collapse(s[1..]);
      NonWsAppend([s[0]], Collapse(s[1..]));
      r
  }


  /** `clean_text`: newlines to spaces, strip, drop a leading run of bullets
      and whitespace, collapse whitespace runs, strip again. */
  function CleanText(t: string): (r: string)
    ensures Normalized(r)
  {
    Strip(Collapse(DropWhile(Strip(ReplaceNewlines(t)), IsBulletOrWhitespace)))
  }

  // ---------------------------------------------------------------------
  // Content preserved by clean_text

  lemma {:induction false} DropWhileReplaceNewlines(s: string)
    ensures DropWhile(ReplaceNewlines(s), IsBulletOrWhitespace)
         == ReplaceNewlines(DropWhile(s, IsBulletOrWhitespace))
    decreases |s|
  {
    if s != [] {
      assert ReplaceNewlines(s)[1..] == ReplaceNewlines(s[1..]);
      DropWhileReplaceNewlines(s[1..]);
    }
  }

  lemma {:induction false} NonWsReplaceNewlines(s: string)
    ensures NonWs(ReplaceNewlines(s)) == NonWs(s)
    decreases |s|
  {
    if s != [] {
      assert ReplaceNewlines(s)[1..] == ReplaceNewlines(s[1..]);
      NonWsReplaceNewlines(s[1..]);
    }
  }

  lemma {:induction false} DropWhitespaceThenBullets(s: string)
    ensures DropWhile(DropWhile(s, IsWhitespace), IsBulletOrWhitespace)
         == DropWhile(s, IsBulletOrWhitespace)
    decreases |s|
  {
    if s != [] && IsWhitespace(s[0]) {
      DropWhitespaceThenBullets(s[1..]);
    }
  }

  lemma {:induction false} DropWhileOfBlank(s: string)
    requires forall i :: 0 <= i < |s| ==> IsWhitespace(s[i])
    ensures DropWhile(s, IsBulletOrWhitespace) == []
    decreases |s|
  {
    if s != [] {
      DropWhileOfBlank(s[1..]);
    }
  }

  /** Whitespace appended at the end does not change the content left after
      the leading bullets are dropped. */
  lemma {:induction false} TrailingBlankIrrelevant(a: string, z: string)
    requires forall i :: 0 <= i < |z| ==> IsWhitespace(z[i])
    ensures NonWs(DropWhile(a + z, IsBulletOrWhitespace)) == NonWs(DropWhile(a, IsBulletOrWhitespace))
    decreases |a|
  {
    if a == [] {
      assert a + z == z;
      DropWhileOfBlank(z);
    } else if IsBulletOrWhitespace(a[0]) {
      assert (a + z)[1..] == a[1..] + z;
      TrailingBlankIrrelevant(a[1..], z);
    } else {
      NonWsAppend(a, z);
      NonWsOfBlank(z);
    }
  }

  /** Stripping trailing whitespace before dropping the leading bullets
      does not change the content that remains. */
  lemma DropBulletsAfterStripEnd(v: string)
    ensures NonWs(DropWhile(DropWhileEnd(v, IsWhitespace), IsBulletOrWhitespace))
         == NonWs(DropWhile(v, IsBulletOrWhitespace))
  {
    var a := DropWhileEnd(v, IsWhitespace);
    assert v == a + v[|a|..];
    TrailingBlankIrrelevant(a, v[|a|..]);
  }

  lemma DropBulletsOfReplaced(t: string)
    ensures NonWs(DropWhile(ReplaceNewlines(t), IsBulletOrWhitespace))
         == NonWs(DropWhile(t, IsBulletOrWhitespace))
  {
    DropWhileReplaceNewlines(t);
    NonWsReplaceNewlines(DropWhile(t, IsBulletOrWhitespace));
  }

  /** clean_text removes only whitespace and the leading bullets: the
      non-whitespace content of its result is that of the input after its
      leading run of bullets and whitespace. */
  lemma CleanTextKeepsContent(t: string)
    ensures NonWs(CleanText(t)) == NonWs(DropWhile(t, IsBulletOrWhitespace))
  {
    var u := ReplaceNewlines(t);
    var v := DropWhile(u, IsWhitespace);
    var b := DropWhile(Strip(u), IsBulletOrWhitespace);
    calc {
      NonWs(CleanText(t));
      NonWs(Collapse(b));
      NonWs(b);
      { assert Strip(u) == DropWhileEnd(v, IsWhitespace);
        DropBulletsAfterStripEnd(v); }
      NonWs(DropWhile(v, IsBulletOrWhitespace));
      { DropWhitespaceThenBullets(u); }
      NonWs(DropWhile(u, IsBulletOrWhitespace));
      { DropBulletsOfReplaced(t); }
      NonWs(DropWhile(t, IsBulletOrWhitespace));
    }
  }

  // ---------------------------------------------------------------------
  // Idempotence of clean_text

  lemma {:induction false} ReplaceNewlinesFixes(s: string)
    requires SpacesOnly(s)
    ensures ReplaceNewlines(s) == s
    decreases |s|
  {
    if s != [] {
      assert s[0] != '\n';
      ReplaceNewlinesFixes(s[1..]);
    }
  }

  lemma {:induction false} CollapseFixes(s: string)
    requires NoDoubleWs(s) && SpacesOnly(s)
    ensures Collapse(s) == s
    decreases |s|
  {
    if s != [] {
      StripSlice(s, 1, s[1..]);
      CollapseFixes(s[1..]);
      if IsWhitespace(s[0]) {
        CollapseFixesBlank(s);
      } else {
        CollapseCons(s);
        assert s == [s[0]] + s[1..];
      }
    }
  }

  lemma CollapseFixesBlank(s: string)
    requires s != [] && IsWhitespace(s[0]) && NoDoubleWs(s) && SpacesOnly(s)
    requires Collapse(s[1..]) == s[1..]
    ensures Collapse(s) == s
  {
    assert s[0] == ' ';
    assert |s| == 1 || !IsWhitespace(s[1]);
    assert DropWhile(s, IsWhitespace) == s[1..];
    CollapseBlankStart(s);
    assert s == [s[0]] + s[1..];
  }

  /** A normalised text is a fixed point of clean_text. */
  lemma CleanTextFixesNormalized(s: string)
    requires Normalized(s)
    ensures CleanText(s) == s
  {
    ReplaceNewlinesFixes(s);
    assert Strip(s) == s;
    assert DropWhile(s, IsBulletOrWhitespace) == s;
    CollapseFixes(s);
  }

  /** clean_text is idempotent. */
  lemma CleanTextIdempotent(t: string)
    ensures CleanText(CleanText(t)) == CleanText(t)
  {
    CleanTextFixesNormalized(CleanText(t));
  }

  // ---------------------------------------------------------------------
  // Words: `str.split()` with no argument

  function Concat(ws: seq<string>): string {
    if ws == [] then [] else ws[0] + Concat(ws[1..])
  }

  /** The content of a text is its first word followed by the content of
      the rest. */
  lemma NonWsTakeWord(t: string)
    ensures
      var w := TakeWord(t);
      NonWs(t) == w + NonWs(t[|w|..])
  {
    var w := TakeWord(t);
    NonWsSplit(t, |w|);
    assert t[..|w|] == w;
    NonWsOfSolid(w);
  }

  /** Every entry is a non-empty run of non-whitespace characters. */
  predicate AreWords(ws: seq<string>) {
    forall i :: 0 <= i < |ws| ==> ws[i] != [] && NoWhitespace(ws[i])
  }

  /** `str.split()`: the maximal runs of non-whitespace characters. */
  function Words(s: string): (ws: seq<string>)
    ensures AreWords(ws)
    ensures Concat(ws) == NonWs(s)
    decreases |s|
  {
    var t := DropWhile(s, IsWhitespace);
    if t == [] then
      NonWsDropBlank(s);
      []
    else
      var w := TakeWord(t);
      var rest := Words(t[|w|..]);
      WordsCons(s, t, w, rest);
      [w] + rest
  }

  lemma ConcatCons(w: string, rest: seq<string>)
    ensures Concat([w] + rest) == w + Concat(rest)
  {
    assert ([w] + rest)[1..] == rest;
  }

  lemma WordsCons(s: string, t: string, w: string, rest: seq<string>)
    requires t == DropWhile(s, IsWhitespace) && t != [] && w == TakeWord(t)
    requires AreWords(rest) && Concat(rest) == NonWs(t[|w|..])
    ensures AreWords([w] + rest)
    ensures Concat([w] + rest) == NonWs(s)
  {
    assert w != [] && NoWhitespace(w);
    AreWordsCons(w, rest);
    calc {
      Concat([w] + rest);
      { ConcatCons(w, rest); }
      w + Concat(rest);
      w + NonWs(t[|w|..]);
      { NonWsTakeWord(t); }
      NonWs(t);
      { NonWsDropBlank(s); }
      NonWs(s);
    }
  }

  lemma AreWordsCons(w: string, rest: seq<string>)
    requires w != [] && NoWhitespace(w) && AreWords(rest)
    ensures AreWords([w] + rest)
  {
    forall i | 0 <= i < |[w] + rest|
      ensures ([w] + rest)[i] != [] && NoWhitespace(([w] + rest)[i])
    {
      if i > 0 {
        assert ([w] + rest)[i] == rest[i - 1];
      }
    }
  }

  /** `" ".join(parts)`. */
  function JoinSpace(parts: seq<string>): string {
    if parts == [] then []
    else if |parts| == 1 then parts[0]
    else parts[0] + (" " + JoinSpace(parts[1..]))
  }

  /** A join starts with its first part. */
  lemma JoinSpaceStartsWith(parts: seq<string>)
    requires parts != []
    ensures |JoinSpace(parts)| >= |parts[0]| && JoinSpace(parts)[..|parts[0]|] == parts[0]
  {
    if |parts| > 1 {
      assert JoinSpace(parts) == parts[0] + (" " + JoinSpace(parts[1..]));
    }
  }

  /** Joining more parts adds their content after the first part's. */
  lemma JoinAddsContent(a: string, rest: seq<string>)
    requires rest != [] && rest[0] != [] && !IsWhitespace(rest[0][0])
    ensures |NonWs(JoinSpace([a] + rest))| > |NonWs(a)|
  {
    var tail := JoinSpace(rest);
    assert ([a] + rest)[1..] == rest;
    assert JoinSpace([a] + rest) == a + (" " + tail);
    NonWsAppend(a, " " + tail);
    NonWsAppend(" ", tail);
    JoinSpaceStartsWith(rest);
    assert tail[0] == rest[0][0];
    NonWsKeeps(tail, 0);
  }

  lemma WordsSkipsLeadingBlank(s: string)
    requires s != [] && IsWhitespace(s[0])
    ensures Words(s) == Words(s[1..])
  {
    assert DropWhile(s, IsWhitespace) == DropWhile(s[1..], IsWhitespace);
  }

  lemma {:induction false} TakeWordSolid(w: string, z: string)
    requires NoWhitespace(w)
    requires z == [] || IsWhitespace(z[0])
    ensures TakeWord(w + z) == w
    decreases |w|
  {
    if w != [] {
      assert (w + z)[1..] == w[1..] + z;
      TakeWordSolid(w[1..], z);
    } else {
      assert w + z == z;
    }
  }

  /** A word followed by whitespace splits into that word and the words of
      the rest. */
  lemma WordsOfWordThen(w: string, z: string)
    requires w != [] && NoWhitespace(w)
    requires z == [] || IsWhitespace(z[0])
    ensures Words(w + z) == [w] + Words(z)
  {
    HeadTailAppend(w, z);
    TakeWordSolid(w, z);
    AppendTail(w, z);
    WordsOfSolidStart(w + z);
  }

  lemma AppendTail<T>(a: seq<T>, z: seq<T>)
    ensures (a + z)[|a|..] == z
  {
  }

  lemma AreWordsTail(ws: seq<string>)
    requires ws != [] && AreWords(ws)
    ensures AreWords(ws[1..])
  {
    forall i | 0 <= i < |ws[1..]|
      ensures ws[1..][i] != [] && NoWhitespace(ws[1..][i])
    {
      assert ws[1..][i] == ws[i + 1];
    }
  }

  lemma WordsOfJoinStep(ws: seq<string>)
    requires |ws| >= 2 && AreWords(ws)
    ensures Words(JoinSpace(ws)) == [ws[0]] + Words(JoinSpace(ws[1..]))
  {
    var w := ws[0];
    var r := JoinSpace(ws[1..]);
    assert w != [] && NoWhitespace(w);
    WordsOfWordThen(w, " " + r);
    WordsAfterSpace(r);
  }

  lemma WordsAfterSpace(r: string)
    ensures Words(" " + r) == Words(r)
  {
    SpaceThen(r);
    WordsSkipsLeadingBlank(" " + r);
  }

  /** Splitting a space-joined list of words gives the words back. */
  lemma {:induction false} WordsOfJoin(ws: seq<string>)
    requires AreWords(ws)
    ensures Words(JoinSpace(ws)) == ws
    decreases |ws|
  {
    if ws == [] {
      assert JoinSpace(ws) == [];
    } else if |ws| == 1 {
      WordsOfOne(ws[0]);
    } else {
      WordsOfJoinStep(ws);
      AreWordsTail(ws);
      WordsOfJoin(ws[1..]);
      assert [ws[0]] + ws[1..] == ws;
    }
  }

  lemma WordsOfOne(w: string)
    requires w != [] && NoWhitespace(w)
    ensures Words(w) == [w]
  {
    AppendEmpty(w);
    WordsOfWordThen(w, []);
  }

  // ---------------------------------------------------------------------
  // Words of normalised and cleaned texts

  // Facts about concatenations and slices, kept apart from the text
  // functions so that the proofs below only combine equations.

  lemma HeadTailAppend<T>(a: seq<T>, z: seq<T>)
    requires a != []
    ensures (a + z)[0] == a[0] && (a + z)[1..] == a[1..] + z
  {
  }

  lemma AppendEmpty<T>(z: seq<T>)
    ensures [] + z == z && z + [] == z
  {
  }

  lemma AppendAssoc<T>(a: seq<T>, b: seq<T>, c: seq<T>)
    ensures a + (b + c) == (a + b) + c
  {
  }

  lemma SplitAround<T>(s: seq<T>, k: nat)
    requires k < |s|
    ensures s == s[..k] + ([s[k]] + s[k + 1..])
  {
  }

  lemma SpaceThen(r: string)
    ensures (" " + r)[0] == ' ' && (" " + r)[1..] == r
  {
  }

  /** A text is its first word followed by a rest that is empty or starts
      with whitespace; the word is non-empty when the text starts with a
      non-whitespace character. */
  lemma TakeWordSplit(s: string)
    ensures var w := TakeWord(s);
      && s == w + s[|w|..]
      && (s[|w|..] == [] || IsWhitespace(s[|w|..][0]))
      && (s != [] && !IsWhitespace(s[0]) ==> w != [])
  {
    var w := TakeWord(s);
    assert s[|w|..] != [] ==> s[|w|..][0] == s[|w|];
  }

  /** A text is its part before the trailing whitespace followed by that
      whitespace. */
  lemma TrailingBlankSplit(v: string)
    ensures var a := DropWhileEnd(v, IsWhitespace);
      && v == a + v[|a|..]
      && forall i :: 0 <= i < |v[|a|..]| ==> IsWhitespace(v[|a|..][i])
  {
    var a := DropWhileEnd(v, IsWhitespace);
    forall i | 0 <= i < |v[|a|..]| ensures IsWhitespace(v[|a|..][i]) {
      assert v[|a|..][i] == v[|a| + i];
    }
  }

  lemma BlankStartAppend(a: string, z: string)
    requires a == [] || IsWhitespace(a[0])
    requires z == [] || IsWhitespace(z[0])
    ensures a + z == [] || IsWhitespace((a + z)[0])
  {
    if a == [] {
      AppendEmpty(z);
    } else {
      HeadTailAppend(a, z);
    }
  }

  lemma SameShapeSuffix(a: string, b: string, k: nat)
    requires SameShape(a, b) && k <= |a|
    ensures SameShape(a[k..], b[k..])
  {
    forall i | 0 <= i < |a[k..]|
      ensures && (IsWhitespace(a[k..][i]) <==> IsWhitespace(b[k..][i]))
              && (!IsWhitespace(a[k..][i]) ==> a[k..][i] == b[k..][i])
    {
      assert a[k..][i] == a[k + i] && b[k..][i] == b[k + i];
    }
  }

  lemma {:induction false} TakeWordSameShape(a: string, b: string)
    requires SameShape(a, b)
    ensures TakeWord(a) == TakeWord(b)
    decreases |a|
  {
    if a != [] && !IsWhitespace(a[0]) {
      SameShapeSuffix(a, b, 1);
      TakeWordSameShape(a[1..], b[1..]);
    }
  }

  // Single steps of `Words`.

  lemma WordsOfSolidStart(s: string)
    requires s != [] && !IsWhitespace(s[0])
    ensures Words(s) == [TakeWord(s)] + Words(s[|TakeWord(s)|..])
  {
    assert DropWhile(s, IsWhitespace) == s;
  }

  lemma WordsNonEmpty(s: string)
    requires s != [] && !IsWhitespace(s[0])
    ensures Words(s) != []
  {
    WordsOfSolidStart(s);
  }

  lemma WordsOfBlank(z: string)
    requires forall i :: 0 <= i < |z| ==> IsWhitespace(z[i])
    ensures Words(z) == []
  {
  }

  /** Leading whitespace does not change the words. */
  lemma WordsDropBlank(s: string)
    ensures Words(DropWhile(s, IsWhitespace)) == Words(s)
  {
    var t := DropWhile(s, IsWhitespace);
    assert DropWhile(t, IsWhitespace) == t;
  }

  /** The words of a text depend only on its non-whitespace characters and
      on where its whitespace is, not on which whitespace characters it
      uses. */
  lemma {:induction false} WordsSameShape(a: string, b: string)
    requires SameShape(a, b)
    ensures Words(a) == Words(b)
    decreases |a|
  {
    if a != [] {
      SameShapeSuffix(a, b, 1);
      if IsWhitespace(a[0]) {
        WordsSkipsLeadingBlank(a);
        WordsSkipsLeadingBlank(b);
        WordsSameShape(a[1..], b[1..]);
      } else {
        WordsOfSolidStart(a);
        WordsOfSolidStart(b);
        TakeWordSplit(a);
        TakeWordSameShape(a, b);
        var w := TakeWord(a);
        SameShapeSuffix(a, b, |w|);
        WordsSameShape(a[|w|..], b[|w|..]);
      }
    }
  }

  /** Trailing whitespace does not change the words. */
  lemma {:induction false} WordsTrailingBlank(a: string, z: string)
    requires forall i :: 0 <= i < |z| ==> IsWhitespace(z[i])
    ensures Words(a + z) == Words(a)
    decreases |a|
  {
    if a == [] {
      AppendEmpty(z);
      WordsOfBlank(z);
    } else if IsWhitespace(a[0]) {
      WordsTrailingBlank(a[1..], z);
      WordsAfterBlank(a, z);
    } else {
      TakeWordSplit(a);
      var w := TakeWord(a);
      var a2 := a[|w|..];
      WordsTrailingBlank(a2, z);
      WordsAfterWord(w, a2, z);
    }
  }

  lemma WordsAfterBlank(a: string, z: string)
    requires a != [] && IsWhitespace(a[0])
    requires Words(a[1..] + z) == Words(a[1..])
    ensures Words(a + z) == Words(a)
  {
    HeadTailAppend(a, z);
    WordsSkipsLeadingBlank(a);
    WordsSkipsLeadingBlank(a + z);
  }

  /** One step of `WordsTrailingBlank`: the first word of `a` stays the
      first word of `a + z`. */
  lemma WordsAfterWord(w: string, a2: string, z: string)
    requires forall i :: 0 <= i < |z| ==> IsWhitespace(z[i])
    requires w != [] && NoWhitespace(w) && (a2 == [] || IsWhitespace(a2[0]))
    requires Words(a2 + z) == Words(a2)
    ensures Words((w + a2) + z) == Words(w + a2)
  {
    AppendAssoc(w, a2, z);
    BlankStartAppend(a2, z);
    WordsOfWordThen(w, a2);
    WordsOfWordThen(w, a2 + z);
  }

  /** `strip()` does not change the words. */
  lemma WordsOfStrip(x: string)
    ensures Words(Strip(x)) == Words(x)
  {
    var a := DropWhile(x, IsWhitespace);
    TrailingBlankSplit(a);
    var r := DropWhileEnd(a, IsWhitespace);
    WordsTrailingBlank(r, a[|r|..]);
    WordsDropBlank(x);
  }

  lemma NoWhitespaceTail(w: string)
    requires w != [] && NoWhitespace(w)
    ensures NoWhitespace(w[1..]) && w == [w[0]] + w[1..]
  {
    forall i | 0 <= i < |w[1..]| ensures !IsWhitespace(w[1..][i]) {
      assert w[1..][i] == w[i + 1];
    }
  }

  lemma CollapseCons(s: string)
    requires s != [] && !IsWhitespace(s[0])
    ensures Collapse(s) == [s[0]] + Collapse(s[1..])
  {
  }

  lemma CollapseBlankStart(s: string)
    requires s != [] && IsWhitespace(s[0])
    ensures |DropWhile(s, IsWhitespace)| < |s|
    ensures Collapse(s) == " " + Collapse(DropWhile(s, IsWhitespace))
  {
    var rest := DropWhile(s, IsWhitespace);
    assert rest != [] ==> rest[0] == s[|s| - |rest|];
  }

  /** The last character survives a `DropWhile` unless everything goes. */
  lemma DropWhileLast(s: string, p: char -> bool)
    requires s != []
    ensures var r := DropWhile(s, p);
      (r == [] ==> p(s[|s| - 1])) && (r != [] ==> r[|r| - 1] == s[|s| - 1])
  {
  }

  /** `r` ends as the collapse of `s` must: in one space when `s` ends in
      whitespace, in the same character otherwise. */
  predicate EndMatches(s: string, r: string) {
    s != [] ==>
      && r != []
      && (IsWhitespace(s[|s| - 1]) ==> r[|r| - 1] == ' ')
      && (!IsWhitespace(s[|s| - 1]) ==> r[|r| - 1] == s[|s| - 1])
  }

  lemma EndMatchesShift(s: string, t: string, x: string, r: string)
    requires s != [] && t != [] && s[|s| - 1] == t[|t| - 1] && EndMatches(t, r)
    ensures EndMatches(s, x + r)
  {
    assert (x + r)[|x + r| - 1] == r[|r| - 1];
  }

  /** The end of the text: a trailing whitespace run becomes one space, and
      a final non-blank character is kept. */
  lemma {:induction false} CollapseLast(s: string)
    ensures EndMatches(s, Collapse(s))
    decreases |s|
  {
    if s != [] {
      if IsWhitespace(s[0]) {
        var rest := DropWhile(s, IsWhitespace);
        CollapseBlankStart(s);
        DropWhileLast(s, IsWhitespace);
        if rest != [] {
          CollapseLast(rest);
          EndMatchesShift(s, rest, " ", Collapse(rest));
        }
      } else {
        CollapseCons(s);
        if |s| > 1 {
          CollapseLast(s[1..]);
          EndMatchesShift(s, s[1..], [s[0]], Collapse(s[1..]));
        }
      }
    }
  }

  /** A word in front passes through the collapse unchanged. */
  lemma {:induction false} CollapseSolid(w: string, z: string)
    requires NoWhitespace(w)
    ensures Collapse(w + z) == w + Collapse(z)
    decreases |w|
  {
    if w == [] {
      AppendEmpty(z);
    } else {
      NoWhitespaceTail(w);
      var t := w[1..];
      CollapseSolid(t, z);
      HeadTailAppend(w, z);
      CollapseCons(w + z);
      AppendAssoc([w[0]], t, Collapse(z));
    }
  }

  /** Collapsing whitespace runs keeps the words: a run becomes one space,
      never nothing, so no two words merge. */
  lemma {:induction false} WordsOfCollapse(s: string)
    ensures Words(Collapse(s)) == Words(s)
    decreases |s|
  {
    if s != [] {
      if IsWhitespace(s[0]) {
        CollapseBlankStart(s);
        WordsOfCollapse(DropWhile(s, IsWhitespace));
        WordsOfCollapseBlank(s);
      } else {
        TakeWordSplit(s);
        var w := TakeWord(s);
        var z := s[|w|..];
        WordsOfCollapse(z);
        WordsOfCollapseWord(w, z);
      }
    }
  }

  lemma WordsOfCollapseBlank(s: string)
    requires s != [] && IsWhitespace(s[0])
    requires var rest := DropWhile(s, IsWhitespace); Words(Collapse(rest)) == Words(rest)
    ensures Words(Collapse(s)) == Words(s)
  {
    CollapseBlankStart(s);
    WordsAfterSpace(Collapse(DropWhile(s, IsWhitespace)));
    WordsDropBlank(s);
  }

  lemma WordsOfCollapseWord(w: string, z: string)
    requires w != [] && NoWhitespace(w) && (z == [] || IsWhitespace(z[0]))
    requires Words(Collapse(z)) == Words(z)
    ensures Words(Collapse(w + z)) == Words(w + z)
  {
    CollapseSolid(w, z);
    WordsOfWordThen(w, Collapse(z));
    WordsOfWordThen(w, z);
  }

  /** The rest of a spaced text after its first word and the following
      space is again spaced. */
  lemma SpacedAfterWord(s: string, k: nat)
    requires Spaced(s) && 0 < k < |s| && IsWhitespace(s[k - 1])
    ensures s[k..] != [] && Spaced(s[k..])
  {
    var r := s[k..];
    assert r[0] == s[k];
    assert r[|r| - 1] == s[|s| - 1];
    StripSlice(s, k, r);
  }

  /** Joining the words of a spaced text with single spaces gives the text
      back. */
  lemma {:induction false} JoinWordsOfSpaced(s: string)
    requires Spaced(s)
    ensures JoinSpace(Words(s)) == s
    decreases |s|
  {
    if s != [] {
      TakeWordSplit(s);
      var w := TakeWord(s);
      if |w| == |s| {
        WordsOfOne(w);
      } else {
        SpacedAfterWord(s, |w| + 1);
        var r := s[|w| + 1..];
        JoinWordsOfSpaced(r);
        SpacedSplit(s);
        JoinWordsStep(w, r);
      }
    }
  }

  /** One step of `JoinWordsOfSpaced`: the first word, one space, and the
      rest joined back. */
  lemma JoinWordsStep(w: string, r: string)
    requires w != [] && NoWhitespace(w)
    requires r != [] && !IsWhitespace(r[0])
    requires JoinSpace(Words(r)) == r
    ensures JoinSpace(Words(w + (" " + r))) == w + (" " + r)
  {
    SpaceThen(r);
    WordsOfWordThen(w, " " + r);
    WordsAfterSpace(r);
    WordsNonEmpty(r);
    JoinSpaceFront(w, Words(r));
  }

  /** A spaced text with more than one word is its first word, one space,
      and the rest. */
  lemma SpacedSplit(s: string)
    requires Spaced(s) && |TakeWord(s)| < |s|
    ensures var w := TakeWord(s); s == w + (" " + s[|w| + 1..])
  {
    var w := TakeWord(s);
    assert s[|w|] == ' ';
    SplitAround(s, |w|);
  }

  lemma JoinSpaceFront(w: string, ws: seq<string>)
    requires ws != []
    ensures JoinSpace([w] + ws) == w + (" " + JoinSpace(ws))
  {
    assert ([w] + ws)[1..] == ws;
  }

  /** On a normalised text, splitting into words and joining them with
      single spaces is the identity; with `WordsOfJoin` this is a round
      trip between normalised texts and word lists. */
  lemma JoinWordsOfNormalized(s: string)
    requires Normalized(s)
    ensures JoinSpace(Words(s)) == s
  {
    JoinWordsOfSpaced(s);
  }

  lemma DropBulletsHead(s: string)
    requires s != []
    ensures IsBulletOrWhitespace(s[0]) ==>
      DropWhile(s, IsBulletOrWhitespace) == DropWhile(s[1..], IsBulletOrWhitespace)
    ensures !IsBulletOrWhitespace(s[0]) ==> DropWhile(s, IsBulletOrWhitespace) == s
  {
  }

  /** Dropping leading bullets commutes with trailing whitespace, as far as
      the words are concerned. */
  lemma {:induction false} WordsDropBulletsTrailing(a: string, z: string)
    requires forall i :: 0 <= i < |z| ==> IsWhitespace(z[i])
    ensures Words(DropWhile(a + z, IsBulletOrWhitespace)) == Words(DropWhile(a, IsBulletOrWhitespace))
    decreases |a|
  {
    if a == [] {
      AppendEmpty(z);
      DropWhileOfBlank(z);
    } else {
      HeadTailAppend(a, z);
      DropBulletsHead(a);
      DropBulletsHead(a + z);
      if IsBulletOrWhitespace(a[0]) {
        WordsDropBulletsTrailing(a[1..], z);
      } else {
        WordsTrailingBlank(a, z);
      }
    }
  }

  lemma WordsDropBulletsAfterStrip(u: string)
    ensures Words(DropWhile(Strip(u), IsBulletOrWhitespace))
         == Words(DropWhile(u, IsBulletOrWhitespace))
  {
    var v := DropWhile(u, IsWhitespace);
    TrailingBlankSplit(v);
    var a := DropWhileEnd(v, IsWhitespace);
    WordsDropBulletsTrailing(a, v[|a|..]);
    DropWhitespaceThenBullets(u);
  }

  /** The part of clean_text before the whitespace collapse keeps the words
      of the input after its leading bullets. */
  lemma WordsBeforeCollapse(t: string)
    ensures Words(DropWhile(Strip(ReplaceNewlines(t)), IsBulletOrWhitespace))
         == Words(DropWhile(t, IsBulletOrWhitespace))
  {
    WordsDropBulletsAfterStrip(ReplaceNewlines(t));
    DropWhileReplaceNewlines(t);
    var d := DropWhile(t, IsBulletOrWhitespace);
    WordsSameShape(d, ReplaceNewlines(d));
  }

  /** clean_text keeps the words of its input once the leading bullets are
      dropped: it changes only the whitespace between them. */
  lemma WordsOfCleanText(t: string)
    ensures Words(CleanText(t)) == Words(DropWhile(t, IsBulletOrWhitespace))
  {
    var b := DropWhile(Strip(ReplaceNewlines(t)), IsBulletOrWhitespace);
    WordsOfStrip(Collapse(b));
    WordsOfCollapse(b);
    WordsBeforeCollapse(t);
  }

  // ---------------------------------------------------------------------
  // base_checks

  const MaxWords: int := 40
  const MaxLen: int := 200

  /** `ONLY_PUNCT_NUM`: a non-empty text of punctuation, digits, `_` and
      whitespace only, i.e. without any letter. */
  predicate OnlyPunctNum(t: string) {
    |t| > 0 && forall i :: 0 <= i < |t| ==> !IsLetter(t[i])
  }

  /** `base_checks(t, max_words, max_len)`. */
  predicate BaseChecks(t: string, maxWords: int, maxLen: int) {
    if t == [] || OnlyPunctNum(t) then false
    else if |Words(t)| < 1 || |Words(t)| > maxWords then false
    else |t| <= maxLen
  }

  /** `base_checks(t)` with its default caps, as every caller uses it. */
  predicate Plausible(t: string) {
    BaseChecks(t, MaxWords, MaxLen)
  }

  /** A text with a letter has at least one word. */
  lemma LetterMakesWord(t: string)
    requires HasLetter(t)
    ensures |Words(t)| >= 1
  {
    var i :| 0 <= i < |t| && IsLetter(t[i]);
    LetterIsNotWhitespace(t[i]);
    NonWsKeeps(t, i);
  }

  /** base_checks accepts exactly the texts with a letter, at most
      `maxWords` words and at most `maxLen` characters; the empty text,
      letterless texts and over-long texts are all rejected. */
  lemma BaseChecksCharacterized(t: string, maxWords: int, maxLen: int)
    ensures BaseChecks(t, maxWords, maxLen)
        <==> HasLetter(t) && |Words(t)| <= maxWords && |t| <= maxLen
    ensures t == [] ==> !BaseChecks(t, maxWords, maxLen)
  {
    if HasLetter(t) {
      LetterMakesWord(t);
    }
  }

  // ---------------------------------------------------------------------
  // has_title_hint

  const TitleHintWords: set<string> := {
    "application", "form", "grant", "ltc", "overview", "foundation", "extension",
    "proposal", "rfp", "business", "plan", "library", "pathways", "parsippany", "troy", "hills"
  }

  predicate IsHintPunct(c: char) {
    c == '.' || c == ',' || c == ':' || c == ';' || c == '(' || c == ')'
  }

  /** `w.strip('.,:;()').lower()`. */
  function HintToken(w: string): string {
    Lower(DropWhileEnd(DropWhile(w, IsHintPunct), IsHintPunct))
  }

  /** `has_title_hint`: some whitespace-separated token, stripped of
      surrounding `.,:;()` and lower-cased, is a hint word. */
  predicate HasTitleHint(t: string) {
    exists i :: 0 <= i < |Words(t)| && HintToken(Words(t)[i]) in TitleHintWords
  }

  /** On a space-joined list of words, the hint test looks at exactly those
      words: the text has a hint iff one of the words, stripped of
      surrounding `.,:;()` and lower-cased, is a hint word. */
  lemma HasTitleHintOfJoin(ws: seq<string>)
    requires AreWords(ws)
    ensures HasTitleHint(JoinSpace(ws)) <==> exists i :: 0 <= i < |ws| && HintToken(ws[i]) in TitleHintWords
  {
    WordsOfJoin(ws);
  }

  /** Case and surrounding punctuation do not matter: "(Overview)" and
      "OVERVIEW:" are hint words. */
  lemma HintTokenIgnoresCase(w: string)
    ensures HintToken(Lower(w)) == HintToken(w)
  {
    var a := DropWhileEnd(DropWhile(w, IsHintPunct), IsHintPunct);
    var b := DropWhileEnd(DropWhile(Lower(w), IsHintPunct), IsHintPunct);
    LowerKeepsTrim(w);
    LowerIdempotent(a);
  }

  /** Trimming hint punctuation commutes with lower-casing. */
  lemma LowerKeepsTrim(w: string)
    ensures DropWhileEnd(DropWhile(Lower(w), IsHintPunct), IsHintPunct)
         == Lower(DropWhileEnd(DropWhile(w, IsHintPunct), IsHintPunct))
  {
    LowerDropWhile(w);
    LowerDropWhileEnd(DropWhile(w, IsHintPunct));
  }

  lemma {:induction false} LowerDropWhile(w: string)
    ensures DropWhile(Lower(w), IsHintPunct) == Lower(DropWhile(w, IsHintPunct))
    decreases |w|
  {
    if w != [] {
      var lw := Lower(w);
      assert lw[0] == ToLowerChar(w[0]);
      if IsHintPunct(w[0]) {
        assert IsHintPunct(lw[0]);
        assert lw[1..] == Lower(w[1..]);
        calc {
          DropWhile(lw, IsHintPunct);
          DropWhile(lw[1..], IsHintPunct);
          { LowerDropWhile(w[1..]); }
          Lower(DropWhile(w[1..], IsHintPunct));
          Lower(DropWhile(w, IsHintPunct));
        }
      } else {
        assert !IsHintPunct(lw[0]);
        assert DropWhile(lw, IsHintPunct) == lw;
        assert DropWhile(w, IsHintPunct) == w;
      }
    }
  }

  lemma {:induction false} LowerDropWhileEnd(w: string)
    ensures DropWhileEnd(Lower(w), IsHintPunct) == Lower(DropWhileEnd(w, IsHintPunct))
    decreases |w|
  {
    if w != [] {
      var lw := Lower(w);
      var n := |w| - 1;
      assert lw[n] == ToLowerChar(w[n]);
      if IsHintPunct(w[n]) {
        assert IsHintPunct(lw[n]);
        assert lw[..n] == Lower(w[..n]);
        calc {
          DropWhileEnd(lw, IsHintPunct);
          DropWhileEnd(lw[..n], IsHintPunct);
          { LowerDropWhileEnd(w[..n]); }
          Lower(DropWhileEnd(w[..n], IsHintPunct));
          Lower(DropWhileEnd(w, IsHintPunct));
        }
      } else {
        assert !IsHintPunct(lw[n]);
        assert DropWhileEnd(lw, IsHintPunct) == lw;
        assert DropWhileEnd(w, IsHintPunct) == w;
      }
    }
  }

  /** Cleaning a join whose first part is clean and has a letter never
      gives the empty text. */
  lemma CleanJoinKeepsLetter(parts: seq<string>)
    requires parts != [] && Normalized(parts[0]) && HasLetter(parts[0])
    ensures CleanText(JoinSpace(parts)) != []
  {
    var base := parts[0];
    var i :| 0 <= i < |base| && IsLetter(base[i]);
    LetterIsNotWhitespace(base[i]);
    var j := JoinSpace(parts);
    JoinSpaceStartsWith(parts);
    assert j[i] == base[i] && j[0] == base[0];
    assert DropWhile(j, IsBulletOrWhitespace) == j;
    CleanTextKeepsContent(j);
    NonWsKeeps(j, i);
  }
}
