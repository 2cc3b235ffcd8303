/**
  The handful of Python `str` operations the bot relies on, over `string`
  (a sequence of Unicode scalar values): `isspace`, `strip`, `split()`,
  `split("\n")`, `split("|", 1)`, `split(maxsplit=1)`, `startswith`,
  `replace(p, "")`, `in`, and the ASCII case folding SQLite applies.
 */
module PyStr {
  import opened Optional
  import opened Seqs

  /** Python's `str.isspace` on one character. */
  predicate IsSpace(c: char) {
    || ('\t' <= c <= '\r')
    || ('\U{1C}' <= c <= '\U{1F}')
    || c == ' '
    || c == '\U{85}'
    || c == '\U{A0}'
    || c == '\U{1680}'
    || ('\U{2000}' <= c <= '\U{200A}')
    || c == '\U{2028}'
    || c == '\U{2029}'
    || c == '\U{202F}'
    || c == '\U{205F}'
    || c == '\U{3000}'
  }

  /** `IsSpace` holds of exactly these characters, listed one by one. */
  lemma IsSpaceListed(c: char)
    ensures IsSpace(c) <==> c in ("\t\n\U{B}\U{C}\r\U{1C}\U{1D}\U{1E}\U{1F} \U{85}\U{A0}\U{1680}"
                                 + "\U{2000}\U{2001}\U{2002}\U{2003}\U{2004}\U{2005}\U{2006}"
                                 + "\U{2007}\U{2008}\U{2009}\U{200A}"
                                 + "\U{2028}\U{2029}\U{202F}\U{205F}\U{3000}")
  {
  }

  predicate AllSpace(s: string) {
    forall i :: 0 <= i < |s| ==> IsSpace(s[i])
  }

  predicate NoSpace(s: string) {
    forall i :: 0 <= i < |s| ==> !IsSpace(s[i])
  }

  /** A token of `split()`: non-empty and free of whitespace. */
  predicate IsWord(w: string) {
    |w| > 0 && NoSpace(w)
  }

  predicate StartsWith(s: string, prefix: string) {
    |prefix| <= |s| && s[..|prefix|] == prefix
  }

  predicate EndsWith(s: string, suffix: string) {
    |suffix| <= |s| && s[|s| - |suffix|..] == suffix
  }

  // ---------------------------------------------------------------- strip

  /** Length of the whitespace run at the front of `s`. */
  function LeadingSpace(s: string): (n: nat)
    ensures n <= |s|
    ensures AllSpace(s[..n])
    ensures n < |s| ==> !IsSpace(s[n])
  {
    if |s| > 0 && IsSpace(s[0]) then
      var m := LeadingSpace(s[1..]);
      assert s[..m + 1] == [s[0]] + s[1..][..m];
      m + 1
    else
      0
  }

  /** Length of the whitespace run at the back of `s`. */
  function TrailingSpace(s: string): (n: nat)
    ensures n <= |s|
    ensures AllSpace(s[|s| - n..])
    ensures n < |s| ==> !IsSpace(s[|s| - n - 1])
  {
    if |s| > 0 && IsSpace(s[|s| - 1]) then
      var p := s[..|s| - 1];
      var m := TrailingSpace(p);
      var w := s[|s| - (m + 1)..];
      assert AllSpace(w) by {
        forall i | 0 <= i < |w| ensures IsSpace(w[i]) {
          var k := |s| - (m + 1) + i;
          assert w[i] == s[k];
          if i < m {
            assert p[|p| - m..][i] == p[k] == s[k];
          }
        }
      }
      assert m + 1 < |s| ==> s[|s| - (m + 1) - 1] == p[|p| - m - 1];
      m + 1
    else
      0
  }

  /** Neither end of `s` is whitespace. */
  predicate Trimmed(s: string) {
    |s| == 0 || (!IsSpace(s[0]) && !IsSpace(s[|s| - 1]))
  }

  /** `r` sits at offset `i` of `s` with only whitespace around it. */
  ghost predicate StripsAt(s: string, r: string, i: int) {
    && 0 <= i && i + |r| <= |s|
    && s[i..i + |r|] == r
    && AllSpace(s[..i])
    && AllSpace(s[i + |r|..])
  }

  /** Python's `s.strip()`. */
  function Strip(s: string): (r: string)
    ensures Trimmed(r)
    ensures StripsAt(s, r, LeadingSpace(s))
  {
    var a := LeadingSpace(s);
    var t := s[a..];
    var b := TrailingSpace(t);
    var r := t[..|t| - b];
    StripParts(s, a, t, b, r);
    r
  }

  /** The middle of `s` between its two whitespace runs is trimmed and has
      only whitespace around it. */
  lemma StripParts(s: string, a: nat, t: string, b: nat, r: string)
    requires a == LeadingSpace(s) && t == s[a..]
    requires b == TrailingSpace(t) && r == t[..|t| - b]
    ensures Trimmed(r) && StripsAt(s, r, a)
  {
    assert |r| > 0 ==> r[0] == t[0] == s[a] && r[|r| - 1] == t[|t| - b - 1];
    assert s[a..a + |r|] == r;
    assert s[a + |r|..] == t[|t| - b..];
  }

  /** `LeadingSpace` is the only cut with whitespace before it and none at it. */
  lemma {:induction false} LeadingSpaceUnique(s: string, n: nat)
    requires n <= |s| && AllSpace(s[..n]) && (n < |s| ==> !IsSpace(s[n]))
    ensures LeadingSpace(s) == n
    decreases n
  {
    if n > 0 {
      assert s[..n][0] == s[0];
      assert s[1..][..n - 1] == s[..n][1..];
      LeadingSpaceUnique(s[1..], n - 1);
    }
  }

  lemma {:induction false} TrailingSpaceUnique(s: string, n: nat)
    requires n <= |s| && AllSpace(s[|s| - n..]) && (n < |s| ==> !IsSpace(s[|s| - n - 1]))
    ensures TrailingSpace(s) == n
    decreases n
  {
    if n > 0 {
      var p, m := s[..|s| - 1], n - 1;
      TrailingRunShrinks(s, n, p, m);
      TrailingSpaceUnique(p, m);
    }
  }

  /** A whitespace run of length `n` at the back of `s`, less its last character. */
  lemma TrailingRunShrinks(s: string, n: nat, p: string, m: nat)
    requires 0 < n <= |s| && AllSpace(s[|s| - n..]) && (n < |s| ==> !IsSpace(s[|s| - n - 1]))
    requires p == s[..|s| - 1] && n == m + 1
    ensures IsSpace(s[|s| - 1])
    ensures m <= |p| && AllSpace(p[|p| - m..]) && (m < |p| ==> !IsSpace(p[|p| - m - 1]))
  {
    var q := s[|s| - n..];
    assert q[m] == s[|s| - 1];
    var pq := p[|p| - m..];
    forall i | 0 <= i < |pq| ensures IsSpace(pq[i]) {
      assert pq[i] == q[i];
    }
    if n < |s| {
      var k := |s| - n - 1;
      assert |p| - m - 1 == k;
      assert p[k] == s[k];
    }
  }

  /** Stripping is determined by its two promises: any trimmed infix with only
      whitespace around it is the stripped string. */
  lemma {:induction false} StripUnique(s: string, r: string, i: int)
    requires Trimmed(r) && StripsAt(s, r, i)
    ensures Strip(s) == r
  {
    if |r| == 0 {
      assert s == s[..i] + s[i..];
      assert AllSpace(s);
      LeadingSpaceUnique(s, |s|);
    } else {
      assert s[i] == r[0];
      assert s[..i + 1] == s[..i] + [s[i]];
      LeadingSpaceUnique(s, i);
      var t := s[i..];
      assert t == r + s[i + |r|..];
      TrailingSpaceUnique(t, |t| - |r|);
    }
  }

  /** A trimmed text is its own strip. */
  lemma {:induction false} StripOfTrimmed(s: string)
    requires Trimmed(s)
    ensures Strip(s) == s
  {
    assert s[..0] == [] && s[0..|s|] == s && s[|s|..] == [];
    StripUnique(s, s, 0);
  }

  /** Python's `strip` is idempotent. */
  lemma StripIdempotent(s: string)
    ensures Strip(Strip(s)) == Strip(s)
  {
    StripOfTrimmed(Strip(s));
  }

  // ---------------------------------------------------------------- split()

  /** Length of the leading run of non-whitespace characters. */
  function TokenLen(s: string): (n: nat)
    ensures n <= |s|
    ensures NoSpace(s[..n])
    ensures n < |s| ==> IsSpace(s[n])
  {
    if |s| > 0 && !IsSpace(s[0]) then
      var m := TokenLen(s[1..]);
      assert s[..m + 1] == [s[0]] + s[1..][..m];
      m + 1
    else
      0
  }

  lemma {:induction false} TokenLenUnique(s: string, n: nat)
    requires n <= |s| && NoSpace(s[..n]) && (n < |s| ==> IsSpace(s[n]))
    ensures TokenLen(s) == n
    decreases n
  {
    if n > 0 {
      assert s[..n][0] == s[0];
      assert s[1..][..n - 1] == s[..n][1..];
      TokenLenUnique(s[1..], n - 1);
    }
  }

  /** Python's `s.split()`: the maximal whitespace-free runs, in order. */
  function Words(s: string): (ws: seq<string>)
    ensures forall k :: 0 <= k < |ws| ==> IsWord(ws[k])
    decreases |s|
  {
    var t := s[LeadingSpace(s)..];
    if |t| == 0 then
      []
    else
      var n := TokenLen(t);
      [t[..n]] + Words(t[n..])
  }

  /** `split()` finds no word exactly in a text of whitespace only. */
  lemma WordsEmpty(s: string)
    ensures Words(s) == [] <==> AllSpace(s)
  {
    assert s[..|s|] == s;
    if AllSpace(s) {
      LeadingSpaceUnique(s, |s|);
    }
  }

  /** Python's `sep.join(ws)`. */
  function Join(ws: seq<string>, sep: string): string {
    if |ws| == 0 then ""
    else if |ws| == 1 then ws[0]
    else ws[0] + sep + Join(ws[1..], sep)
  }

  /** Whitespace in front of a string does not change its words. */
  lemma WordsAfterSpace(y: string, x: string)
    requires AllSpace(y)
    ensures Words(y + x) == Words(x)
  {
    var a := LeadingSpace(x);
    var rest := x[a..];
    AllSpaceConcat(y, x[..a]);
    Regroup(y, x, a);
    assert |rest| > 0 ==> rest[0] == x[a];
    LeadingSpaceOf(y + x[..a], rest);
  }

  lemma AllSpaceConcat(p: string, q: string)
    requires AllSpace(p) && AllSpace(q)
    ensures AllSpace(p + q)
  {
    var s := p + q;
    forall i | 0 <= i < |s| ensures IsSpace(s[i]) {
      if i >= |p| { assert s[i] == q[i - |p|]; }
    }
  }

  /** Whitespace behind a string does not change its words. */
  lemma {:induction false} WordsBeforeSpace(x: string, y: string)
    requires AllSpace(y)
    ensures Words(x + y) == Words(x)
    decreases |x|
  {
    var a := LeadingSpace(x);
    if a == |x| {
      WordsOfSpaces(x, y);
    } else {
      var lead, u := x[..a], x[a..];
      var n := TokenLen(u);
      var w, v := u[..n], u[n..];
      assert u[0] == x[a] && n > 0 && IsWord(w);
      CutTwice(x, y, a, n);
      assert |v| > 0 ==> v[0] == u[n];
      WordsAfterSpace(lead, w + v);
      WordsOfWordThen(w, v);
      WordsAfterSpace(lead, w + (v + y));
      WordsOfWordThen(w, v + y);
      WordsBeforeSpace(v, y);
    }
  }

  /** Two whitespace-only texts together have no words. */
  lemma WordsOfSpaces(x: string, y: string)
    requires LeadingSpace(x) == |x| && AllSpace(y)
    ensures Words(x + y) == [] && Words(x) == []
  {
    assert x[..|x|] == x;
    AllSpaceConcat(x, y);
    WordsEmpty(x);
    WordsEmpty(x + y);
  }

  /** Python: `s.strip().split() == s.split()`. */
  lemma WordsOfStrip(s: string)
    ensures Words(Strip(s)) == Words(s)
  {
    var r, i := Strip(s), LeadingSpace(s);
    assert StripsAt(s, r, i);
    CutAround(s, i, |r|);
    var before, mid, after := s[..i], s[i..], s[i + |r|..];
    assert mid == r + after;
    WordsAfterSpace(before, mid);
    WordsBeforeSpace(r, after);
  }

  /** A word followed by whitespace (or nothing) splits off as the first word. */
  lemma WordsOfWordThen(w: string, rest: string)
    requires IsWord(w)
    requires |rest| == 0 || IsSpace(rest[0])
    ensures Words(w + rest) == [w] + Words(rest)
  {
    var s := w + rest;
    assert s[..0] == [];
    LeadingSpaceUnique(s, 0);
    assert s[0..] == s;
    assert s[..|w|] == w;
    TokenLenUnique(s, |w|);
    assert s[|w|..] == rest;
  }

  /** Joining words with single spaces and splitting again gives the words back. */
  lemma {:induction false} WordsOfJoin(ws: seq<string>)
    requires forall k :: 0 <= k < |ws| ==> IsWord(ws[k])
    ensures Words(Join(ws, " ")) == ws
    decreases |ws|
  {
    if |ws| == 0 {
      assert Words("") == [];
    } else if |ws| == 1 {
      WordsOfWordThen(ws[0], "");
      assert ws[0] + "" == ws[0];
      assert Words("") == [];
    } else {
      var j := Join(ws[1..], " ");
      assert Join(ws, " ") == ws[0] + (" " + j);
      WordsOfWordThen(ws[0], " " + j);
      WordsAfterSpace(" ", j);
      WordsOfJoin(ws[1..]);
    }
  }

  /** Joining the words of `s` from the `n`-th on splits back into them. */
  lemma WordsOfJoinedTail(s: string, n: nat)
    requires n <= |Words(s)|
    ensures Words(Join(Words(s)[n..], " ")) == Words(s)[n..]
  {
    var ws := Words(s)[n..];
    forall k | 0 <= k < |ws| ensures IsWord(ws[k]) {
      assert ws[k] == Words(s)[n + k];
    }
    WordsOfJoin(ws);
  }

  /** The second element of Python's `s.split(maxsplit=1)`, if there is one:
      what follows the first word and the whitespace after it, inner
      whitespace included. */
  function AfterFirstWord(s: string): (r: Option<string>)
    ensures r.Some? <==> |Words(s)| >= 2
    ensures r.Some? ==> |r.value| > 0 && !IsSpace(r.value[0])
    ensures r.Some? ==> Words(s) == [Words(s)[0]] + Words(r.value)
    ensures r.Some? ==> |r.value| < |s| && EndsWith(s, r.value)
  {
    var t := s[LeadingSpace(s)..];
    var u := t[TokenLen(t)..];
    var rest := u[LeadingSpace(u)..];
    WordsCut(s);
    if |t| == 0 || |rest| == 0 then None
    else
      CutIsSuffix(s);
      Some(rest)
  }

  /** What is left behind the leading whitespace, the first token and the
      whitespace after it is a suffix of `s`, shorter than `s` when there is
      a token. */
  lemma CutIsSuffix(s: string)
    ensures var t := s[LeadingSpace(s)..];
      var u := t[TokenLen(t)..];
      var rest := u[LeadingSpace(u)..];
      && EndsWith(s, rest)
      && (|t| > 0 ==> |rest| < |s|)
  {
    var a := LeadingSpace(s);
    var t := s[a..];
    var b := TokenLen(t);
    var u := t[b..];
    DropThrice(s, a, b, LeadingSpace(u));
    if |t| > 0 {
      assert !IsSpace(t[0]);
    }
  }

  /** `split()` behind the leading whitespace, the first token and the
      whitespace after it. */
  lemma WordsCut(s: string)
    ensures var t := s[LeadingSpace(s)..];
      var u := t[TokenLen(t)..];
      var rest := u[LeadingSpace(u)..];
      && (|t| == 0 ==> Words(s) == [])
      && (|t| > 0 ==> Words(s) == [t[..TokenLen(t)]] + Words(rest))
      && (|rest| == 0 <==> Words(rest) == [])
  {
    var t := s[LeadingSpace(s)..];
    var u := t[TokenLen(t)..];
    WordsSkipLead(u);
    var rest := u[LeadingSpace(u)..];
    if |rest| > 0 {
      WordsOfNonSpace(rest);
    }
  }

  /** Leading whitespace does not change the words. */
  lemma WordsSkipLead(u: string)
    ensures Words(u) == Words(u[LeadingSpace(u)..])
  {
    var a := LeadingSpace(u);
    assert u == u[..a] + u[a..];
    WordsAfterSpace(u[..a], u[a..]);
  }

  /** A text that starts with a non-space character has a first word. */
  lemma WordsOfNonSpace(r: string)
    requires |r| > 0 && !IsSpace(r[0])
    ensures |Words(r)| > 0
  {
    assert r[..0] == [];
    LeadingSpaceUnique(r, 0);
  }

  /** The first word of `s` is the token behind its leading whitespace. */
  lemma FirstWordIs(s: string)
    ensures var t := s[LeadingSpace(s)..];
      |t| > 0 ==> |Words(s)| > 0 && Words(s)[0] == t[..TokenLen(t)]
  {
  }

  lemma SplitWitness(s: string, lead: string, w: string, gap: string, r: string)
    requires AllSpace(lead) && |gap| > 0 && AllSpace(gap) && s == lead + w + gap + r
    ensures exists lead: string, gap: string ::
      && AllSpace(lead) && |gap| > 0 && AllSpace(gap)
      && s == lead + w + gap + r
  {
  }

  /** What `AfterFirstWord` returns is a suffix of `s`, and what it cuts off
      is whitespace, the first word and at least one whitespace character. */
  lemma AfterFirstWordSplits(s: string)
    ensures AfterFirstWord(s).Some? ==>
      exists lead: string, gap: string ::
        && AllSpace(lead) && |gap| > 0 && AllSpace(gap)
        && s == lead + Words(s)[0] + gap + AfterFirstWord(s).value
  {
    var t := s[LeadingSpace(s)..];
    var n := TokenLen(t);
    var u := t[n..];
    var m := LeadingSpace(u);
    var rest := u[m..];
    if AfterFirstWord(s).Some? {
      var lead, w, gap := s[..LeadingSpace(s)], t[..n], u[..m];
      assert AfterFirstWord(s).value == rest;
      FirstWordIs(s);
      CutThrice(s, LeadingSpace(s), n, m);
      SplitWitness(s, lead, Words(s)[0], gap, AfterFirstWord(s).value);
    }
  }

  /** Conversely, the cut is determined by the shape of `s`: whitespace, a
      word, a non-empty whitespace run, and a rest that starts with a
      non-space character. */
  lemma AfterFirstWordOfParts(lead: string, w: string, gap: string, rest: string)
    requires AllSpace(lead) && IsWord(w) && |gap| > 0 && AllSpace(gap)
    requires |rest| > 0 && !IsSpace(rest[0])
    ensures AfterFirstWord(lead + w + gap + rest) == Some(rest)
  {
    var u := gap + rest;
    var t := w + u;
    assert lead + w + gap + rest == lead + t;
    LeadingSpaceOf(lead, t);
    TokenLenOf(w, u);
    LeadingSpaceOf(gap, rest);
  }

  /** A whitespace run followed by a non-whitespace character is the leading run. */
  lemma LeadingSpaceOf(lead: string, r: string)
    requires AllSpace(lead) && (|r| > 0 ==> !IsSpace(r[0]))
    ensures LeadingSpace(lead + r) == |lead| && (lead + r)[|lead|..] == r
  {
    var s := lead + r;
    assert s[..|lead|] == lead;
    assert |r| > 0 ==> s[|lead|] == r[0];
    LeadingSpaceUnique(s, |lead|);
  }

  /** A word followed by whitespace (or nothing) is the leading token. */
  lemma TokenLenOf(w: string, r: string)
    requires NoSpace(w) && (|r| > 0 ==> IsSpace(r[0]))
    ensures TokenLen(w + r) == |w| && (w + r)[..|w|] == w && (w + r)[|w|..] == r
  {
    var s := w + r;
    assert s[..|w|] == w;
    assert |r| > 0 ==> s[|w|] == r[0];
    TokenLenUnique(s, |w|);
  }

  // ------------------------------------------------------ split on a character

  /** Position of the first `c` in `s`. */
  function IndexOf(s: string, c: char): (i: nat)
    requires c in s
    ensures i < |s| && s[i] == c && c !in s[..i]
  {
    if s[0] == c then 0
    else
      var j := IndexOf(s[1..], c);
      assert s[..j + 1] == [s[0]] + s[1..][..j];
      j + 1
  }

  /** Python's `s.split(c)` for a one-character separator. */
  function SplitOn(s: string, c: char): (parts: seq<string>)
    ensures |parts| >= 1
    ensures |parts| == 1 <==> c !in s
    ensures forall k :: 0 <= k < |parts| ==> c !in parts[k]
    decreases |s|
  {
    if c !in s then [s]
    else
      var i := IndexOf(s, c);
      [s[..i]] + SplitOn(s[i + 1..], c)
  }

  /** Joining the pieces with the separator rebuilds the string. */
  lemma {:induction false} JoinSplitOn(s: string, c: char)
    ensures Join(SplitOn(s, c), [c]) == s
    decreases |s|
  {
    if c in s {
      var i := IndexOf(s, c);
      var tail := s[i + 1..];
      JoinSplitOn(tail, c);
      AroundIndex(s, i);
      JoinCons(s[..i], SplitOn(tail, c), [c]);
    }
  }

  /** `sep.join([a] + ws)` for a non-empty `ws`. */
  lemma JoinCons(a: string, ws: seq<string>, sep: string)
    requires |ws| >= 1
    ensures Join([a] + ws, sep) == a + sep + Join(ws, sep)
  {
    assert ([a] + ws)[1..] == ws;
  }

  /** Splitting pieces joined by the separator gives the pieces back. */
  lemma {:induction false} SplitOnJoin(parts: seq<string>, c: char)
    requires |parts| >= 1
    requires forall k :: 0 <= k < |parts| ==> c !in parts[k]
    ensures SplitOn(Join(parts, [c]), c) == parts
    decreases |parts|
  {
    if |parts| > 1 {
      var tail := parts[1..];
      assert parts == [parts[0]] + tail;
      assert forall k :: 0 <= k < |tail| ==> c !in tail[k] by {
        forall k | 0 <= k < |tail| ensures c !in tail[k] {
          assert tail[k] == parts[k + 1];
        }
      }
      JoinCons(parts[0], tail, [c]);
      SplitOnCons(parts[0], c, Join(tail, [c]));
      SplitOnJoin(tail, c);
    }
  }

  /** The first separator of `a + [c] + b` is the one after `a` when `a` has none. */
  lemma SplitOnCons(a: string, c: char, b: string)
    requires c !in a
    ensures SplitOn(a + [c] + b, c) == [a] + SplitOn(b, c)
  {
    var s := a + [c] + b;
    assert s[|a|] == c && s[..|a|] == a;
    IndexOfUnique(s, c, |a|);
    assert s[|a| + 1..] == b;
  }

  /** `IndexOf` is the only position holding `c` with no `c` before it. */
  lemma {:induction false} IndexOfUnique(s: string, c: char, n: nat)
    requires n < |s| && s[n] == c && c !in s[..n]
    ensures c in s && IndexOf(s, c) == n
    decreases n
  {
    if n > 0 {
      var t, m := s[1..], n - 1;
      assert s[..n][0] == s[0];
      assert t[..m] == s[..n][1..];
      IndexOfUnique(t, c, m);
    }
  }

  /** Python's `s.split(c, 1)`: the text before the first `c` and the text after it. */
  function SplitFirst(s: string, c: char): (r: Option<(string, string)>)
    ensures r.Some? <==> c in s
    ensures r.Some? ==> s == r.value.0 + [c] + r.value.1 && c !in r.value.0
  {
    if c in s then
      var i := IndexOf(s, c);
      assert s == s[..i] + [c] + s[i + 1..];
      Some((s[..i], s[i + 1..]))
    else
      None
  }

  // ---------------------------------------------------------------- substrings

  ghost predicate OccursAt(k: string, t: string, i: int) {
    0 <= i && i + |k| <= |t| && t[i..i + |k|] == k
  }

  /** `k` occurs somewhere in `t` (Python's `k in t`). */
  ghost predicate IsInfix(k: string, t: string) {
    exists i :: OccursAt(k, t, i)
  }

  /** Executable substring test. */
  predicate Contains(t: string, k: string)
    decreases |t|
  {
    StartsWith(t, k) || (|t| > 0 && Contains(t[1..], k))
  }

  lemma {:induction false} OccurrenceIsContained(t: string, k: string, i: int)
    requires OccursAt(k, t, i)
    ensures Contains(t, k)
    decreases i
  {
    if i == 0 {
      assert t[..|k|] == t[0..|k|];
    } else {
      assert t[1..][i - 1..i - 1 + |k|] == t[i..i + |k|];
      OccurrenceIsContained(t[1..], k, i - 1);
    }
  }

  lemma {:induction false} ContainedOccurs(t: string, k: string)
    requires Contains(t, k)
    ensures IsInfix(k, t)
    decreases |t|
  {
    if StartsWith(t, k) {
      assert t[0..|k|] == t[..|k|];
      assert OccursAt(k, t, 0);
    } else {
      ContainedOccurs(t[1..], k);
      var i :| OccursAt(k, t[1..], i);
      assert t[1..][i..i + |k|] == t[i + 1..i + 1 + |k|];
      assert OccursAt(k, t, i + 1);
    }
  }

  /** A text shorter than `k` cannot contain it. */
  lemma {:induction false} ShorterNotContains(t: string, k: string)
    requires |t| < |k|
    ensures !Contains(t, k)
    decreases |t|
  {
    if |t| > 0 {
      ShorterNotContains(t[1..], k);
    }
  }

  /** The executable test agrees with the definition of a substring. */
  lemma ContainsIsInfix(t: string, k: string)
    ensures Contains(t, k) <==> IsInfix(k, t)
  {
    if Contains(t, k) {
      ContainedOccurs(t, k);
    }
    if IsInfix(k, t) {
      var i :| OccursAt(k, t, i);
      OccurrenceIsContained(t, k, i);
    }
  }

  /** Python's `s.replace(pat, "")`: every non-overlapping occurrence of `pat`,
      scanning left to right, is removed. The result is `s` itself when `pat`
      does not occur in `s`, and strictly shorter when it does. */
  function RemoveAll(s: string, pat: string): (r: string)
    requires |pat| > 0
    ensures |r| <= |s|
    ensures !Contains(s, pat) ==> r == s
    ensures Contains(s, pat) ==> |r| < |s|
    decreases |s|
  {
    if StartsWith(s, pat) then RemoveAll(s[|pat|..], pat)
    else if |s| == 0 then ""
    else [s[0]] + RemoveAll(s[1..], pat)
  }

  /** `replace` keeps the text before the first occurrence of `pat`, drops
      that occurrence and carries on after it. Together with `RemoveAll(s,
      pat) == s` for a text without `pat` this fixes the result on every
      input. */
  lemma {:induction false} RemoveAllStep(x: string, pat: string, y: string)
    requires |pat| > 0 && !Contains(x + pat[..|pat| - 1], pat)
    ensures RemoveAll(x + pat + y, pat) == x + RemoveAll(y, pat)
    decreases |x|
  {
    if |x| == 0 {
      RemoveAllAtStart(x, pat, y);
    } else {
      RemoveAllKeepsHead(x, pat, y);
      NoneInTail(x, pat);
      RemoveAllStep(x[1..], pat, y);
      ConsTail(RemoveAll(x + pat + y, pat), x, RemoveAll(x[1..] + pat + y, pat), RemoveAll(y, pat));
    }
  }

  /** An occurrence at the very start is dropped. */
  lemma RemoveAllAtStart(x: string, pat: string, y: string)
    requires |pat| > 0 && |x| == 0
    ensures RemoveAll(x + pat + y, pat) == x + RemoveAll(y, pat)
  {
    var s := x + pat + y;
    assert s[..|pat|] == pat && s[|pat|..] == y;
    assert x + RemoveAll(y, pat) == RemoveAll(y, pat);
  }

  /** Before the first occurrence, the first character is kept. */
  lemma RemoveAllKeepsHead(x: string, pat: string, y: string)
    requires |pat| > 0 && |x| > 0 && !Contains(x + pat[..|pat| - 1], pat)
    ensures RemoveAll(x + pat + y, pat) == [x[0]] + RemoveAll(x[1..] + pat + y, pat)
  {
    var s := x + pat + y;
    var w := x + pat[..|pat| - 1];
    assert w[..|pat|] == s[..|pat|];
    assert !StartsWith(s, pat) by {
      assert StartsWith(s, pat) ==> StartsWith(w, pat);
    }
    assert s[0] == x[0] && s[1..] == x[1..] + pat + y;
  }

  /** Dropping the first character of `x` keeps `pat` out of the window. */
  lemma NoneInTail(x: string, pat: string)
    requires |pat| > 0 && |x| > 0 && !Contains(x + pat[..|pat| - 1], pat)
    ensures !Contains(x[1..] + pat[..|pat| - 1], pat)
  {
    var w := x + pat[..|pat| - 1];
    assert w[1..] == x[1..] + pat[..|pat| - 1];
  }

  // ---------------------------------------------------------------- case folding

  /** ASCII-only lower-casing, as SQLite's `LIKE` and `NOCASE` apply it. */
  function LowerChar(c: char): char {
    if 'A' <= c <= 'Z' then (c as int + 32) as char else c
  }

  function Lower(s: string): (r: string)
    ensures |r| == |s|
    ensures forall i :: 0 <= i < |s| ==> r[i] == LowerChar(s[i])
  {
    if |s| == 0 then "" else [LowerChar(s[0])] + Lower(s[1..])
  }

  /** Folding case twice is folding once. */
  lemma LowerIdempotent(s: string)
    ensures Lower(Lower(s)) == Lower(s)
  {
    assert forall i :: 0 <= i < |s| ==> LowerChar(LowerChar(s[i])) == LowerChar(s[i]);
  }
}
