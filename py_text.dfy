/** Python's `None`-or-value and the few `str` methods the script relies on:
    `startswith`, `endswith`, `split(sep)`, `split()` and `strip()`.
    Strings are sequences of Unicode scalar values, as Python's `str` is. */
module PyText {

  /** A value that may be Python's `None`. */
  datatype Option<T> = None | Some(value: T)

  /** Python truthiness of a `str | None`: neither `None` nor the empty string. */
  predicate Truthy(s: Option<string>) {
    s.Some? && s.value != ""
  }

  /** The characters for which Python's `str.isspace()` holds; these are the
      separators of `split()` and the characters `strip()` removes. */
  predicate IsSpace(c: char) {
    ('\t' <= c <= '\r') || ('\U{1C}' <= c <= ' ') || c == '\U{85}' || c == '\U{A0}'
    || c == '\U{1680}' || ('\U{2000}' <= c <= '\U{200A}') || c == '\U{2028}' || c == '\U{2029}'
    || c == '\U{202F}' || c == '\U{205F}' || c == '\U{3000}'
  }

  predicate AllSpace(s: string) {
    forall i :: 0 <= i < |s| ==> IsSpace(s[i])
  }

  predicate NoSpace(s: string) {
    forall i :: 0 <= i < |s| ==> !IsSpace(s[i])
  }

  /** `s.startswith(prefix)`. */
  predicate StartsWith(s: string, prefix: string) {
    |prefix| <= |s| && s[..|prefix|] == prefix
  }

  /** `s.endswith(suffix)`. */
  predicate EndsWith(s: string, suffix: string) {
    |suffix| <= |s| && s[|s| - |suffix|..] == suffix
  }

  // ---------------------------------------------------------------------------
  // str.split(sep) for a one-character separator

  /** Index of the first `c` in `s`, or `|s|` when there is none. */
  function Find(s: string, c: char): (i: nat)
    ensures i <= |s|
    ensures c !in s[..i]
    ensures i < |s| ==> s[i] == c
  {
    if s == [] then 0
    else if s[0] == c then 0
    else 1 + Find(s[1..], c)
  }

  /** `s.split(c)`: the pieces between the occurrences of `c`, empty pieces kept. */
  function Split(s: string, c: char): (r: seq<string>)
    ensures |r| >= 1
    ensures r[0] == s[..Find(s, c)]
    ensures |r| == 1 <==> Find(s, c) == |s|
    ensures forall k :: 0 <= k < |r| ==> c !in r[k]
    decreases |s|
  {
    var i := Find(s, c);
    if i == |s| then [s] else [s[..i]] + Split(s[i + 1..], c)
  }

  /** `c.join(pieces)`. */
  function Join(pieces: seq<string>, c: char): string
    decreases |pieces|
  {
    if pieces == [] then ""
    else if |pieces| == 1 then pieces[0]
    else pieces[0] + [c] + Join(pieces[1..], c)
  }

  lemma JoinCons(p: string, rest: seq<string>, c: char)
    requires |rest| >= 1
    ensures Join([p] + rest, c) == p + [c] + Join(rest, c)
  {
    assert ([p] + rest)[1..] == rest;
  }

  /** Joining the pieces of a split gives back the string. */
  lemma {:induction false} JoinSplit(s: string, c: char)
    ensures Join(Split(s, c), c) == s
    decreases |s|
  {
    var i := Find(s, c);
    if i < |s| {
      JoinSplit(s[i + 1..], c);
      SplitStep(s, c);
    } else {
      assert Split(s, c) == [s];
    }
  }

  /** One step of `JoinSplit`: the first piece, the separator, and the join of the rest. */
  lemma SplitStep(s: string, c: char)
    requires Find(s, c) < |s|
    requires Join(Split(s[Find(s, c) + 1..], c), c) == s[Find(s, c) + 1..]
    ensures Join(Split(s, c), c) == s
  {
    var i := Find(s, c);
    Around(s, i);
    SplitCons(s, c);
    JoinCons(s[..i], Split(s[i + 1..], c), c);
  }

  lemma SplitCons(s: string, c: char)
    requires Find(s, c) < |s|
    ensures Split(s, c) == [s[..Find(s, c)]] + Split(s[Find(s, c) + 1..], c)
  {
  }

  /** A string is what comes before position `i`, the character there, and what follows. */
  lemma Around(s: string, i: nat)
    requires i < |s|
    ensures s == s[..i] + [s[i]] + s[i + 1..]
  {
    assert s[..i] + [s[i]] == s[..i + 1];
  }

  lemma FindAfter(p: string, c: char, rest: string)
    requires c !in p
    ensures Find(p + [c] + rest, c) == |p|
  {
    var s := p + [c] + rest;
    forall k | 0 <= k < |p| ensures s[k] != c {
      assert s[k] == p[k];
    }
    assert s[|p|] == c;
  }

  /** Splitting a join of pieces that do not contain the separator gives back the pieces. */
  lemma {:induction false} SplitJoin(pieces: seq<string>, c: char)
    requires |pieces| >= 1
    requires forall k :: 0 <= k < |pieces| ==> c !in pieces[k]
    ensures Split(Join(pieces, c), c) == pieces
    decreases |pieces|
  {
    if |pieces| > 1 {
      assert forall k :: 0 <= k < |pieces[1..]| ==> pieces[1..][k] == pieces[k + 1];
      SplitJoin(pieces[1..], c);
      JoinStep(pieces, c);
    }
  }

  /** One step of `SplitJoin`: a first piece without the separator, then the separator. */
  lemma JoinStep(pieces: seq<string>, c: char)
    requires |pieces| > 1 && c !in pieces[0]
    requires Split(Join(pieces[1..], c), c) == pieces[1..]
    ensures Split(Join(pieces, c), c) == pieces
  {
    var p, rest := pieces[0], Join(pieces[1..], c);
    var s := p + [c] + rest;
    assert Join(pieces, c) == s;
    FindAfter(p, c, rest);
    SplitCons(s, c);
    assert s[..|p|] == p;
    assert s[|p| + 1..] == rest;
    assert pieces == [p] + pieces[1..];
  }

  /** The second piece of a split, when the separator occurs: the text between
      the first and the second occurrence (or the end). */
  lemma SplitSecond(s: string, c: char)
    requires c in s
    ensures |Split(s, c)| >= 2
    ensures Split(s, c)[1] == s[Find(s, c) + 1..][..Find(s[Find(s, c) + 1..], c)]
  {
  }

  // ---------------------------------------------------------------------------
  // str.split() with no argument

  /** Length of the run of non-whitespace characters at the front of `s`. */
  function WordLen(s: string): (n: nat)
    ensures n <= |s|
    ensures NoSpace(s[..n])
    ensures n < |s| ==> IsSpace(s[n])
  {
    if s == [] || IsSpace(s[0]) then 0
    else 1 + WordLen(s[1..])
  }

  /** `s.split()`: the maximal runs of non-whitespace characters, in order. */
  function SplitWs(s: string): (r: seq<string>)
    ensures forall k :: 0 <= k < |r| ==> r[k] != [] && NoSpace(r[k])
    decreases |s|
  {
    if s == [] then []
    else if IsSpace(s[0]) then SplitWs(s[1..])
    else
      var n := WordLen(s);
      [s[..n]] + SplitWs(s[n..])
  }

  /** The characters of `s` that are not whitespace, in order. */
  function NonSpace(s: string): string {
    if s == [] then []
    else if IsSpace(s[0]) then NonSpace(s[1..])
    else [s[0]] + NonSpace(s[1..])
  }

  function Concat(ts: seq<string>): string {
    if ts == [] then [] else ts[0] + Concat(ts[1..])
  }

  lemma {:induction false} NonSpaceAppend(a: string, b: string)
    ensures NonSpace(a + b) == NonSpace(a) + NonSpace(b)
    decreases |a|
  {
    if a != [] {
      assert (a + b)[0] == a[0];
      assert (a + b)[1..] == a[1..] + b;
      NonSpaceAppend(a[1..], b);
      if IsSpace(a[0]) {
        assert NonSpace(a + b) == NonSpace(a[1..] + b);
        assert NonSpace(a) == NonSpace(a[1..]);
      } else {
        assert NonSpace(a + b) == [a[0]] + NonSpace(a[1..] + b);
        assert NonSpace(a) == [a[0]] + NonSpace(a[1..]);
      }
    } else {
      assert a + b == b;
    }
  }

  lemma {:induction false} NonSpaceOfWord(w: string)
    requires NoSpace(w)
    ensures NonSpace(w) == w
    decreases |w|
  {
    if w != [] {
      NonSpaceOfWord(w[1..]);
    }
  }

  /** `split()` loses exactly the whitespace: its tokens, concatenated, are the
      non-whitespace characters of the string. */
  lemma {:induction false} SplitWsKeepsText(s: string)
    ensures Concat(SplitWs(s)) == NonSpace(s)
    decreases |s|
  {
    if s != [] {
      if IsSpace(s[0]) {
        SplitWsKeepsText(s[1..]);
      } else {
        var n := WordLen(s);
        SplitWsKeepsText(s[n..]);
        assert s == s[..n] + s[n..];
        NonSpaceAppend(s[..n], s[n..]);
        NonSpaceOfWord(s[..n]);
        assert ([s[..n]] + SplitWs(s[n..]))[1..] == SplitWs(s[n..]);
      }
    }
  }

  /** `split()` yields no token exactly when the string is all whitespace. */
  lemma {:induction false} SplitWsEmpty(s: string)
    ensures SplitWs(s) == [] <==> AllSpace(s)
    decreases |s|
  {
    if s != [] && IsSpace(s[0]) {
      SplitWsEmpty(s[1..]);
      assert forall i :: 1 <= i < |s| ==> s[i] == s[1..][i - 1];
    }
  }

  lemma {:induction false} SplitWsSkipSpace(sp: string, s: string)
    requires AllSpace(sp)
    ensures SplitWs(sp + s) == SplitWs(s)
    decreases |sp|
  {
    if sp != [] {
      assert (sp + s)[0] == sp[0];
      assert (sp + s)[1..] == sp[1..] + s;
      SplitWsSkipSpace(sp[1..], s);
    } else {
      assert sp + s == s;
    }
  }

  /** `WordLen` is the only length with its two properties. */
  lemma {:induction false} WordLenUnique(s: string, n: nat)
    requires n <= |s| && NoSpace(s[..n])
    requires n < |s| ==> IsSpace(s[n])
    ensures WordLen(s) == n
    decreases n
  {
    if n > 0 {
      assert s[0] == s[..n][0];
      assert s[1..][..n - 1] == s[..n][1..];
      WordLenUnique(s[1..], n - 1);
    }
  }

  lemma WordLenOfWordThenSpace(w: string, rest: string)
    requires NoSpace(w)
    requires rest == [] || IsSpace(rest[0])
    ensures WordLen(w + rest) == |w|
  {
    var s := w + rest;
    assert s[..|w|] == w;
    WordLenUnique(s, |w|);
  }

  /** `split()` of tokens joined by single spaces gives back the tokens. */
  lemma {:induction false} SplitWsJoin(tokens: seq<string>)
    requires forall k :: 0 <= k < |tokens| ==> tokens[k] != [] && NoSpace(tokens[k])
    ensures SplitWs(Join(tokens, ' ')) == tokens
    decreases |tokens|
  {
    if |tokens| == 1 {
      WordLenOfWordThenSpace(tokens[0], []);
      assert tokens[0] + [] == tokens[0];
    } else if |tokens| > 1 {
      var w := tokens[0];
      var rest := Join(tokens[1..], ' ');
      var s := w + [' '] + rest;
      assert s == w + ([' '] + rest);
      WordLenOfWordThenSpace(w, [' '] + rest);
      assert s[..|w|] == w;
      assert s[|w|..] == [' '] + rest;
      SplitWsSkipSpace([' '], rest);
      SplitWsJoin(tokens[1..]);
    }
  }

  /** A word followed by a run of whitespace of any length is one token, and
      `split()` goes on after that run. */
  lemma SplitWsWordSep(w: string, sp: string, rest: string)
    requires w != [] && NoSpace(w)
    requires sp != [] && AllSpace(sp)
    ensures SplitWs(w + sp + rest) == [w] + SplitWs(rest)
  {
    var s := w + sp + rest;
    assert s == w + (sp + rest);
    WordLenOfWordThenSpace(w, sp + rest);
    assert s[..|w|] == w;
    assert s[|w|..] == sp + rest;
    SplitWsSkipSpace(sp, rest);
  }

  /** A word alone is a single token. */
  lemma SplitWsWord(w: string)
    requires w != [] && NoSpace(w)
    ensures SplitWs(w) == [w]
  {
    WordLenOfWordThenSpace(w, []);
    assert w + [] == w;
    assert w[|w|..] == [];
  }

  /** Tokens, each followed by its gap of whitespace: `tokens[0] + gaps[0] +
      tokens[1] + gaps[1] + ...`. */
  function Spaced(tokens: seq<string>, gaps: seq<string>): string
    requires |gaps| == |tokens|
    decreases |tokens|
  {
    if tokens == [] then "" else tokens[0] + gaps[0] + Spaced(tokens[1..], gaps[1..])
  }

  /** `split()` recovers the tokens of a column layout whatever the widths of
      the gaps: leading whitespace, then tokens separated by non-empty runs of
      whitespace, then possibly trailing whitespace. */
  lemma {:induction false} SplitWsSpaced(lead: string, tokens: seq<string>, gaps: seq<string>)
    requires AllSpace(lead) && |gaps| == |tokens|
    requires forall k :: 0 <= k < |tokens| ==> tokens[k] != [] && NoSpace(tokens[k])
    requires forall k :: 0 <= k < |gaps| ==> AllSpace(gaps[k])
    requires forall k :: 0 <= k < |gaps| - 1 ==> gaps[k] != []
    ensures SplitWs(lead + Spaced(tokens, gaps)) == tokens
    decreases |tokens|
  {
    SplitWsSkipSpace(lead, Spaced(tokens, gaps));
    if tokens != [] {
      var w, g, rest := tokens[0], gaps[0], Spaced(tokens[1..], gaps[1..]);
      SplitWsSpaced([], tokens[1..], gaps[1..]);
      assert [] + rest == rest;
      if g != [] {
        SplitWsWordSep(w, g, rest);
      } else {
        assert |tokens| == 1 && rest == [] && w + g + rest == w;
        SplitWsWord(w);
      }
      assert tokens == [w] + tokens[1..];
    }
  }

  // ---------------------------------------------------------------------------
  // str.strip() with no argument

  /** The leading half of `strip()`, removing whitespace at the front as `s.lstrip()`
      would; what it keeps is a suffix of `s` (lemma `TrimStartSuffix`). */
  function TrimStart(s: string): (r: string)
    ensures |r| <= |s|
    ensures AllSpace(s[..|s| - |r|])
    ensures r == [] || !IsSpace(r[0])
  {
    if s != [] && IsSpace(s[0]) then TrimStart(s[1..]) else s
  }

  /** The trailing half of `strip()`, removing whitespace at the back as `s.rstrip()`
      would; what it keeps is a prefix of `s` (lemma `TrimEndPrefix`). */
  function TrimEnd(s: string): (r: string)
    ensures |r| <= |s|
    ensures AllSpace(s[|r|..])
    ensures r == [] || !IsSpace(r[|r| - 1])
  {
    if s != [] && IsSpace(s[|s| - 1]) then TrimEnd(s[..|s| - 1]) else s
  }

  lemma {:induction false} TrimStartSuffix(s: string)
    ensures TrimStart(s) == s[|s| - |TrimStart(s)|..]
    decreases |s|
  {
    if s != [] && IsSpace(s[0]) {
      TrimStartSuffix(s[1..]);
    }
  }

  lemma {:induction false} TrimEndPrefix(s: string)
    ensures TrimEnd(s) == s[..|TrimEnd(s)|]
    decreases |s|
  {
    if s != [] && IsSpace(s[|s| - 1]) {
      TrimEndPrefix(s[..|s| - 1]);
    }
  }

  /** `s.strip()`: leading whitespace is dropped one character at a time,
      then trailing whitespace (lemma `StripTrims`). */
  function Strip(s: string): (r: string)
    ensures r == [] || (!IsSpace(r[0]) && !IsSpace(r[|r| - 1]))
    decreases |s|
  {
    if s == [] then []
    else if IsSpace(s[0]) then Strip(s[1..])
    else TrimEndKeepsFirst(s); TrimEnd(s)
  }

  /** `strip()` is `TrimEnd` after `TrimStart`. */
  lemma {:induction false} StripTrims(s: string)
    ensures Strip(s) == TrimEnd(TrimStart(s))
    decreases |s|
  {
    if s != [] && IsSpace(s[0]) {
      StripTrims(s[1..]);
    }
  }

  /** The stripped string is the middle of `s` between an all-whitespace
      prefix and an all-whitespace suffix. */
  lemma StripIsMiddle(s: string)
    ensures |Strip(s)| <= |s|
    ensures exists i :: 0 <= i <= |s| - |Strip(s)| && s[i..i + |Strip(s)|] == Strip(s)
              && AllSpace(s[..i]) && AllSpace(s[i + |Strip(s)|..])
  {
    var i := |s| - |TrimStart(s)|;
    StripMiddleAt(s);
    assert 0 <= i <= |s| - |Strip(s)| && s[i..i + |Strip(s)|] == Strip(s)
           && AllSpace(s[..i]) && AllSpace(s[i + |Strip(s)|..]);
  }

  /** `StripIsMiddle` with its witness: the middle starts where `TrimStart` stops. */
  lemma StripMiddleAt(s: string)
    ensures var i := |s| - |TrimStart(s)|;
            i + |Strip(s)| <= |s| && s[i..i + |Strip(s)|] == Strip(s)
            && AllSpace(s[..i]) && AllSpace(s[i + |Strip(s)|..])
  {
    StripTrims(s);
    var t := TrimStart(s);
    TrimStartSuffix(s);
    TrimEndPrefix(t);
    MiddleOf(s, t, TrimEnd(t));
  }

  lemma MiddleOf(s: string, t: string, r: string)
    requires |r| <= |t| <= |s| && t == s[|s| - |t|..] && r == t[..|r|]
    ensures s[|s| - |t|..|s| - |t| + |r|] == r
    ensures s[|s| - |t| + |r|..] == t[|r|..]
  {
  }

  lemma {:induction false} TrimStartSkips(a: string, m: string)
    requires AllSpace(a)
    requires m == [] || !IsSpace(m[0])
    ensures TrimStart(a + m) == m
    decreases |a|
  {
    if a != [] {
      assert (a + m)[1..] == a[1..] + m;
      TrimStartSkips(a[1..], m);
    } else {
      assert a + m == m;
    }
  }

  lemma {:induction false} TrimEndSkips(m: string, b: string)
    requires AllSpace(b)
    requires m == [] || !IsSpace(m[|m| - 1])
    ensures TrimEnd(m + b) == m
    decreases |b|
  {
    if b != [] {
      assert (m + b)[..|m + b| - 1] == m + b[..|b| - 1];
      TrimEndSkips(m, b[..|b| - 1]);
    } else {
      assert m + b == m;
    }
  }

  /** `strip()` is determined by its characterisation: whenever `s` is an
      all-whitespace prefix, a middle that neither starts nor ends with
      whitespace, and an all-whitespace suffix, `strip()` returns the middle. */
  lemma StripUnique(a: string, m: string, b: string)
    requires AllSpace(a) && AllSpace(b)
    requires m == [] || (!IsSpace(m[0]) && !IsSpace(m[|m| - 1]))
    ensures Strip(a + m + b) == m
  {
    if m == [] {
      StripOfSpaces(a, b);
    } else {
      StripOfMiddle(a, m, b);
    }
  }

  lemma StripOfSpaces(a: string, b: string)
    requires AllSpace(a) && AllSpace(b)
    ensures Strip(a + [] + b) == []
  {
    var s := a + [] + b;
    assert s == a + b + [];
    assert AllSpace(a + b) by {
      forall k | 0 <= k < |a + b| ensures IsSpace((a + b)[k]) {
        if k >= |a| {
          assert (a + b)[k] == b[k - |a|];
        }
      }
    }
    TrimStartSkips(a + b, []);
    StripTrims(s);
  }

  lemma StripOfMiddle(a: string, m: string, b: string)
    requires AllSpace(a) && AllSpace(b)
    requires m != [] && !IsSpace(m[0]) && !IsSpace(m[|m| - 1])
    ensures Strip(a + m + b) == m
  {
    assert a + m + b == a + (m + b);
    TrimStartSkips(a, m + b);
    TrimEndSkips(m, b);
    StripTrims(a + m + b);
  }

  /** Stripping twice is stripping once. */
  lemma StripIdempotent(s: string)
    ensures Strip(Strip(s)) == Strip(s)
  {
    var m := Strip(s);
    StripUnique([], m, []);
    assert [] + m + [] == m;
  }

  /** Stripping does not change the tokens of `split()`. */
  lemma StripKeepsTokens(s: string)
    ensures SplitWs(Strip(s)) == SplitWs(s)
  {
    StripTrims(s);
    var t := TrimStart(s);
    var r := Strip(s);
    SplitWsTrimStart(s);
    TrimEndPrefix(t);
    assert t == r + t[|r|..];
    SplitWsTrailing(r, t[|r|..]);
  }

  lemma {:induction false} SplitWsTrailing(s: string, sp: string)
    requires AllSpace(sp)
    ensures SplitWs(s + sp) == SplitWs(s)
    decreases |s|
  {
    if s == [] {
      assert s + sp == sp;
      SplitWsEmpty(sp);
    } else if IsSpace(s[0]) {
      assert (s + sp)[1..] == s[1..] + sp;
      SplitWsTrailing(s[1..], sp);
    } else {
      var n := WordLen(s);
      var u := s + sp;
      WordLenExtends(s, sp);
      assert u[..n] == s[..n];
      assert u[n..] == s[n..] + sp;
      SplitWsTrailing(s[n..], sp);
    }
  }

  lemma WordLenExtends(s: string, sp: string)
    requires AllSpace(sp)
    ensures WordLen(s + sp) == WordLen(s)
  {
    var n := WordLen(s);
    var u := s + sp;
    assert u[..n] == s[..n];
    assert n < |s| ==> u[n] == s[n];
    assert n == |s| && sp != [] ==> u[n] == sp[0];
    WordLenUnique(u, n);
  }

  lemma SplitWsTrimStart(s: string)
    ensures SplitWs(TrimStart(s)) == SplitWs(s)
  {
    var t := TrimStart(s);
    TrimStartSuffix(s);
    assert s == s[..|s| - |t|] + t;
    SplitWsSkipSpace(s[..|s| - |t|], t);
  }

  lemma {:induction false} TrimEndKeepsFirst(t: string)
    requires t != [] && !IsSpace(t[0])
    ensures TrimEnd(t) != [] && TrimEnd(t)[0] == t[0]
    decreases |t|
  {
    if |t| > 1 && IsSpace(t[|t| - 1]) {
      TrimEndKeepsFirst(t[..|t| - 1]);
    }
  }

  /** The first character of `s` that is not whitespace is `c`. */
  predicate FirstNonSpaceIs(s: string, c: char)
    decreases |s|
  {
    s != [] && (if IsSpace(s[0]) then FirstNonSpaceIs(s[1..], c) else s[0] == c)
  }

  lemma {:induction false} FirstNonSpaceOfTrimStart(s: string, c: char)
    ensures FirstNonSpaceIs(s, c) <==> FirstNonSpaceIs(TrimStart(s), c)
    decreases |s|
  {
    if s != [] && IsSpace(s[0]) {
      FirstNonSpaceOfTrimStart(s[1..], c);
    }
  }

  /** `s.strip().startswith(c)` for a non-whitespace `c` is a test of the first
      non-whitespace character. */
  lemma StripStartsWith(s: string, c: char)
    requires !IsSpace(c)
    ensures StartsWith(Strip(s), [c]) <==> FirstNonSpaceIs(s, c)
  {
    StripTrims(s);
    var t := TrimStart(s);
    FirstNonSpaceOfTrimStart(s, c);
    if t != [] {
      TrimEndKeepsFirst(t);
      var r := Strip(s);
      assert r[..1] == [r[0]];
    } else {
      assert Strip(s) == [];
    }
  }

  /** A stripped line starts with `marker` (a non-whitespace character) exactly
      when the first `split()` token does. */
  lemma StripStartsLikeFirstToken(s: string, marker: char)
    requires !IsSpace(marker)
    ensures StartsWith(Strip(s), [marker]) <==> (SplitWs(s) != [] && SplitWs(s)[0][0] == marker)
  {
    StripTrims(s);
    var t := TrimStart(s);
    SplitWsTrimStart(s);
    if t != [] {
      TrimEndKeepsFirst(t);
      var n := WordLen(t);
      assert n >= 1;
      assert SplitWs(t) == [t[..n]] + SplitWs(t[n..]);
      assert SplitWs(t)[0][0] == t[0];
      var r := Strip(s);
      assert r[..1] == [r[0]];
      assert StartsWith(r, [marker]) <==> r[0] == marker;
    } else {
      assert Strip(s) == [];
    }
  }
}
