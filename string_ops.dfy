/** The JavaScript string built-ins that the translator pages rely on, with the
    meaning the model gives them:
    - case mapping is ASCII only (`toUpperCase`, `toLowerCase`);
    - white space is the fixed ECMAScript set shared by the regular-expression
      class `\s` and by `String.prototype.trim`;
    - `split` is on one separator character, `join` on a separator string;
    - `includes` is substring search and `replace(/p/g, r)` replaces every
      leftmost non-overlapping occurrence of a literal pattern. */
module StringOps {

  function UpperChar(c: char): char
  {
    if 'a' <= c <= 'z' then (c as int - 32) as char else c
  }

  function LowerChar(c: char): char
  {
    if 'A' <= c <= 'Z' then (c as int + 32) as char else c
  }

  /** `s.toUpperCase()` restricted to ASCII letters: no lowercase letter is
      left, every other character is kept, and each position still holds the
      same letter up to case. */
  function Upper(s: string): (r: string)
    ensures |r| == |s|
    ensures forall i :: 0 <= i < |r| ==> !('a' <= r[i] <= 'z')
    ensures forall i :: 0 <= i < |s| && !('a' <= s[i] <= 'z') ==> r[i] == s[i]
    ensures forall i :: 0 <= i < |s| ==> LowerChar(r[i]) == LowerChar(s[i])
  {
    seq(|s|, i requires 0 <= i < |s| => UpperChar(s[i]))
  }

  /** `s.toLowerCase()` restricted to ASCII letters: no uppercase letter is
      left, every other character is kept, and each position still holds the
      same letter up to case. */
  function Lower(s: string): (r: string)
    ensures |r| == |s|
    ensures forall i :: 0 <= i < |r| ==> !('A' <= r[i] <= 'Z')
    ensures forall i :: 0 <= i < |s| && !('A' <= s[i] <= 'Z') ==> r[i] == s[i]
    ensures forall i :: 0 <= i < |s| ==> UpperChar(r[i]) == UpperChar(s[i])
  {
    seq(|s|, i requires 0 <= i < |s| => LowerChar(s[i]))
  }

  /** ECMAScript WhiteSpace and LineTerminator code points: what `\s` matches
      and what `trim` removes. */
  predicate IsSpace(c: char)
  {
    var n := c as int;
    (0x09 <= n <= 0x0D) || n == 0x20 || n == 0xA0 || n == 0x1680 ||
    (0x2000 <= n <= 0x200A) || n == 0x2028 || n == 0x2029 || n == 0x202F ||
    n == 0x205F || n == 0x3000 || n == 0xFEFF
  }

  predicate AllSpace(s: string)
  {
    forall i :: 0 <= i < |s| ==> IsSpace(s[i])
  }

  predicate NoSpace(s: string)
  {
    forall i :: 0 <= i < |s| ==> !IsSpace(s[i])
  }

  /** The leading white space of `s` removed. */
  function TrimStart(s: string): (r: string)
    ensures |r| <= |s|
    ensures s != [] && IsSpace(s[0]) ==> |r| < |s|
    ensures r != [] ==> !IsSpace(r[0])
  {
    if s != [] && IsSpace(s[0]) then TrimStart(s[1..]) else s
  }

  /** The trailing white space of `s` removed. */
  function TrimEnd(s: string): (r: string)
    ensures |r| <= |s|
    ensures r != [] ==> !IsSpace(r[|r| - 1])
  {
    if s != [] && IsSpace(s[|s| - 1]) then TrimEnd(s[..|s| - 1]) else s
  }

  /** `s.trim()`. */
  function Trim(s: string): string
  {
    TrimEnd(TrimStart(s))
  }

  /** `s.replace(/\s+/g, ' ')`: every maximal run of white space becomes one
      ordinary space. */
  function Collapse(s: string): string
    decreases |s|
  {
    if s == [] then []
    else if IsSpace(s[0]) then " " + Collapse(TrimStart(s))
    else [s[0]] + Collapse(s[1..])
  }

  /** Length of the white-space-free run at the head of `s`. */
  function WordLen(s: string): (n: nat)
    ensures n <= |s|
    ensures s != [] && !IsSpace(s[0]) ==> n > 0
  {
    if s == [] || IsSpace(s[0]) then 0 else 1 + WordLen(s[1..])
  }

  /** The maximal white-space-free runs of `s`, in order: a reference reading
      of "the words of `s`" that does not go through `replace`, `trim` or
      `split`. */
  function Words(s: string): seq<string>
    decreases |s|
  {
    var t := TrimStart(s);
    if t == [] then []
    else
      var n := WordLen(t);
      [t[..n]] + Words(t[n..])
  }

  /** `s.split(d)` for a one-character separator `d`. */
  function Split(s: string, d: char): (parts: seq<string>)
    ensures |parts| >= 1
  {
    if s == [] then [[]]
    else
      var rest := Split(s[1..], d);
      if s[0] == d then [[]] + rest else [[s[0]] + rest[0]] + rest[1..]
  }

  /** `parts.join(sep)`. */
  function Join(parts: seq<string>, sep: string): string
  {
    if |parts| == 0 then []
    else if |parts| == 1 then parts[0]
    else parts[0] + sep + Join(parts[1..], sep)
  }

  predicate StartsWith(s: string, p: string)
  {
    |p| <= |s| && s[..|p|] == p
  }

  /** `s.includes(w)`, by scanning the start positions of `s` in order. */
  predicate Contains(s: string, w: string)
    decreases |s|
  {
    StartsWith(s, w) || (s != [] && Contains(s[1..], w))
  }

  /** `s.replace(new RegExp(pat, 'g'), rep)` for a pattern without regular
      expression operators: leftmost non-overlapping occurrences. */
  function ReplaceAll(s: string, pat: string, rep: string): string
    requires pat != []
    decreases |s|
  {
    if |s| < |pat| then s
    else if s[..|pat|] == pat then rep + ReplaceAll(s[|pat|..], pat, rep)
    else [s[0]] + ReplaceAll(s[1..], pat, rep)
  }

  // ---------------------------------------------------------------------
  // what the trimming and word functions cut

  /** `TrimStart` removes a prefix made only of white space. */
  lemma {:induction false} TrimStartShape(s: string)
    ensures var r := TrimStart(s);
      r == s[|s| - |r|..] && AllSpace(s[..|s| - |r|])
    decreases |s|
  {
    if s != [] && IsSpace(s[0]) {
      TrimStartShape(s[1..]);
      var r := TrimStart(s);
      assert s[1..][|s| - 1 - |r|..] == s[|s| - |r|..];
      assert s[1..][..|s| - 1 - |r|] == s[1..|s| - |r|];
    }
  }

  /** `TrimEnd` removes a suffix made only of white space. */
  lemma {:induction false} TrimEndShape(s: string)
    ensures var r := TrimEnd(s);
      r == s[..|r|] && AllSpace(s[|r|..])
    decreases |s|
  {
    if s != [] && IsSpace(s[|s| - 1]) {
      TrimEndShape(s[..|s| - 1]);
      var r := TrimEnd(s);
      assert s[..|s| - 1][..|r|] == s[..|r|];
      assert s[..|s| - 1][|r|..] == s[|r|..|s| - 1];
    }
  }

  /** The head run that `WordLen` measures holds no white space and is
      maximal. */
  lemma {:induction false} WordLenShape(s: string)
    ensures var n := WordLen(s);
      NoSpace(s[..n]) && (n < |s| ==> IsSpace(s[n]))
    decreases |s|
  {
    if s != [] && !IsSpace(s[0]) {
      WordLenShape(s[1..]);
      var n := WordLen(s);
      assert forall i :: 1 <= i < n ==> s[..n][i] == s[1..][..n - 1][i - 1];
    }
  }

  /** Every word is non-empty and holds no white space. */
  lemma {:induction false} WordsShape(s: string)
    ensures forall k :: 0 <= k < |Words(s)| ==> Words(s)[k] != [] && NoSpace(Words(s)[k])
    decreases |s|
  {
    var t := TrimStart(s);
    if t != [] {
      var n := WordLen(t);
      WordLenShape(t);
      WordsShape(t[n..]);
    }
  }

  /** No part of a split holds the separator. */
  lemma {:induction false} SplitParts(s: string, d: char)
    ensures forall k :: 0 <= k < |Split(s, d)| ==> d !in Split(s, d)[k]
    decreases |s|
  {
    if s != [] {
      SplitParts(s[1..], d);
    }
  }

  // ---------------------------------------------------------------------
  // split and join are inverse to each other

  lemma {:induction false} SplitWithoutSeparator(s: string, d: char)
    requires d !in s
    ensures Split(s, d) == [s]
    decreases |s|
  {
    if s != [] {
      SplitWithoutSeparator(s[1..], d);
      assert [s[0]] + s[1..] == s;
    }
  }

  lemma {:induction false} SplitAfterPart(p: string, d: char, rest: string)
    requires d !in p
    ensures Split(p + [d] + rest, d) == [p] + Split(rest, d)
    decreases |p|
  {
    if p == [] {
      assert p + [d] + rest == [d] + rest;
      assert ([d] + rest)[1..] == rest;
    } else {
      var x := p + [d] + rest;
      assert x[1..] == p[1..] + [d] + rest;
      SplitAfterPart(p[1..], d, rest);
      assert [p[0]] + p[1..] == p;
    }
  }

  /** Joining parts that do not contain the separator and splitting again
      gives the parts back. */
  lemma {:induction false} SplitJoin(parts: seq<string>, d: char)
    requires |parts| >= 1
    requires forall k :: 0 <= k < |parts| ==> d !in parts[k]
    ensures Split(Join(parts, [d]), d) == parts
    decreases |parts|
  {
    if |parts| == 1 {
      SplitWithoutSeparator(parts[0], d);
    } else {
      SplitJoin(parts[1..], d);
      SplitAfterPart(parts[0], d, Join(parts[1..], [d]));
      assert [parts[0]] + parts[1..] == parts;
    }
  }

  /** Splitting and joining with the same separator gives the string back. */
  lemma {:induction false} JoinSplit(s: string, d: char)
    ensures Join(Split(s, d), [d]) == s
    decreases |s|
  {
    if s != [] {
      var rest := Split(s[1..], d);
      JoinSplit(s[1..], d);
      if s[0] == d {
        assert Split(s, d) == [[]] + rest;
        assert ([[]] + rest)[1..] == rest;
      } else {
        var parts := Split(s, d);
        assert parts == [[s[0]] + rest[0]] + rest[1..];
        if |rest| == 1 {
          assert parts == [[s[0]] + rest[0]];
        } else {
          assert parts[1..] == rest[1..];
          assert Join(rest, [d]) == rest[0] + [d] + Join(rest[1..], [d]);
        }
        assert [s[0]] + s[1..] == s;
      }
    }
  }

  /** Splitting distributes over a separator between two pieces. */
  lemma {:induction false} SplitAppend(x: string, d: char, y: string)
    ensures Split(x + [d] + y, d) == Split(x, d) + Split(y, d)
    decreases |x|
  {
    if x == [] {
      assert x + [d] + y == [d] + y;
      assert ([d] + y)[1..] == y;
    } else {
      var z := x + [d] + y;
      assert z[1..] == x[1..] + [d] + y;
      SplitAppend(x[1..], d, y);
    }
  }

  lemma {:induction false} JoinCons(w: string, ws: seq<string>, sep: string)
    requires ws != []
    ensures Join([w] + ws, sep) == w + sep + Join(ws, sep)
  {
    assert ([w] + ws)[1..] == ws;
  }

  lemma {:induction false} JoinAppend(xs: seq<string>, ys: seq<string>)
    requires xs != [] && ys != []
    ensures Join(xs + ys, []) == Join(xs, []) + Join(ys, [])
    decreases |xs|
  {
    if |xs| == 1 {
      JoinCons(xs[0], ys, []);
      assert xs + ys == [xs[0]] + ys;
    } else {
      JoinAppend(xs[1..], ys);
      assert (xs + ys)[1..] == xs[1..] + ys;
    }
  }

  // ---------------------------------------------------------------------
  // white-space normalisation against the word reading

  lemma {:induction false} TrimStartSpaces(lead: string, rest: string)
    requires AllSpace(lead)
    ensures TrimStart(lead + rest) == TrimStart(rest)
    decreases |lead|
  {
    if lead != [] {
      var x := lead + rest;
      assert x[0] == lead[0] && IsSpace(x[0]);
      assert x[1..] == lead[1..] + rest;
      TrimStartSpaces(lead[1..], rest);
    } else {
      assert lead + rest == rest;
    }
  }

  lemma {:induction false} TrimEndSpaces(rest: string, trail: string)
    requires AllSpace(trail)
    ensures TrimEnd(rest + trail) == TrimEnd(rest)
    decreases |trail|
  {
    if trail != [] {
      var x := rest + trail;
      assert x[..|x| - 1] == rest + trail[..|trail| - 1];
      TrimEndSpaces(rest, trail[..|trail| - 1]);
    } else {
      assert rest + trail == rest;
    }
  }

  /** Trimming removes exactly the white space around a piece that neither
      starts nor ends with white space. */
  lemma TrimPadded(lead: string, j: string, trail: string)
    requires AllSpace(lead) && AllSpace(trail)
    requires j != [] && !IsSpace(j[0]) && !IsSpace(j[|j| - 1])
    ensures Trim(lead + j + trail) == j
  {
    assert lead + j + trail == lead + (j + trail);
    TrimStartSpaces(lead, j + trail);
    TrimEndSpaces(j, trail);
  }

  lemma TrimAllSpace(s: string)
    requires AllSpace(s)
    ensures Trim(s) == []
  {
    TrimStartSpaces(s, []);
    assert s + [] == s;
  }

  lemma {:induction false} CollapseWord(w: string, rest: string)
    requires NoSpace(w)
    ensures Collapse(w + rest) == w + Collapse(rest)
    decreases |w|
  {
    if w != [] {
      var x := w + rest;
      assert x[0] == w[0] && !IsSpace(x[0]);
      assert x[1..] == w[1..] + rest;
      CollapseWord(w[1..], rest);
      assert Collapse(x) == [w[0]] + (w[1..] + Collapse(rest));
      assert w == [w[0]] + w[1..];
    } else {
      assert w + rest == rest;
    }
  }

  lemma WordsTrimStart(s: string)
    ensures Words(TrimStart(s)) == Words(s)
  {
  }

  lemma {:induction false} JoinEnds(ws: seq<string>)
    requires ws != []
    requires forall k :: 0 <= k < |ws| ==> ws[k] != [] && NoSpace(ws[k])
    ensures var j := Join(ws, " ");
      j != [] && !IsSpace(j[0]) && !IsSpace(j[|j| - 1])
    decreases |ws|
  {
    if |ws| > 1 {
      JoinEnds(ws[1..]);
    }
  }

  /** A string that starts inside a word: its first word, then the rest. */
  lemma WordsAtWord(s: string)
    requires s != [] && !IsSpace(s[0])
    ensures WordLen(s) > 0
    ensures Words(s) == [s[..WordLen(s)]] + Words(s[WordLen(s)..])
    ensures Collapse(s) == s[..WordLen(s)] + Collapse(s[WordLen(s)..])
  {
    assert TrimStart(s) == s;
    var n := WordLen(s);
    WordLenShape(s);
    assert s == s[..n] + s[n..];
    CollapseWord(s[..n], s[n..]);
  }

  /** A string that starts with white space: one space, then what follows the
      run. */
  lemma AtSpaceRun(s: string)
    requires s != [] && IsSpace(s[0])
    ensures Collapse(s) == " " + Collapse(TrimStart(s))
    ensures Words(s) == Words(TrimStart(s))
    ensures var u := TrimStart(s);
      if u == [] then IsSpace(s[|s| - 1]) else u[|u| - 1] == s[|s| - 1]
  {
    var u := TrimStart(s);
    WordsTrimStart(s);
    TrimStartShape(s);
    if u == [] {
      assert s[..|s|] == s;
    } else {
      assert u[|u| - 1] == s[|s| - 1];
    }
  }

  lemma Regroup(a: string, b: string, c: string, d: string)
    ensures a + (b + (c + d)) == (a + b + c) + d
  {
  }

  /** Collapsing a string that starts inside a word gives its words joined by
      single spaces, plus one space if it ends in white space. */
  lemma {:induction false} CollapseFromWord(s: string)
    requires s != [] && !IsSpace(s[0])
    ensures Words(s) != []
    ensures Collapse(s) == Join(Words(s), " ") + (if IsSpace(s[|s| - 1]) then " " else "")
    decreases |s|
  {
    var n := WordLen(s);
    WordsAtWord(s);
    WordLenShape(s);
    var w, rest := s[..n], s[n..];
    if rest == [] {
      assert w == s;
      assert !IsSpace(w[n - 1]);
      assert Words(s) == [w];
      assert Collapse(s) == w;
    } else {
      assert rest[|rest| - 1] == s[|s| - 1];
      AtSpaceRun(rest);
      var u := TrimStart(rest);
      if u == [] {
        assert IsSpace(s[|s| - 1]);
        assert Words(s) == [w];
        assert Collapse(s) == w + " ";
      } else {
        var tail: string := if IsSpace(s[|s| - 1]) then " " else "";
        CollapseFromWord(u);
        assert Collapse(u) == Join(Words(u), " ") + tail;
        assert Words(s) == [w] + Words(u);
        JoinCons(w, Words(u), " ");
        var j := Join(Words(u), " ");
        assert Join(Words(s), " ") == w + " " + j;
        assert Collapse(s) == w + (" " + (j + tail));
        Regroup(w, " ", j, tail);
      }
    }
  }

  /** White space in front of a collapsed word-initial string is trimmed
      away, and so is the one space the collapse may leave at its end. */
  lemma TrimCollapsed(lead: string, u: string)
    requires AllSpace(lead)
    requires u != [] && !IsSpace(u[0])
    ensures Trim(lead + Collapse(u)) == Join(Words(u), " ")
  {
    CollapseFromWord(u);
    WordsShape(u);
    JoinEnds(Words(u));
    var j := Join(Words(u), " ");
    var trail: string := if IsSpace(u[|u| - 1]) then " " else "";
    assert lead + Collapse(u) == lead + j + trail;
    TrimPadded(lead, j, trail);
  }

  /** `s.replace(/\s+/g, ' ').trim()` is the words of `s` joined by single
      spaces. */
  lemma NormaliseIsWords(s: string)
    ensures Trim(Collapse(s)) == Join(Words(s), " ")
  {
    if s != [] {
      var u := TrimStart(s);
      WordsTrimStart(s);
      if !IsSpace(s[0]) {
        assert [] + Collapse(s) == Collapse(s);
        TrimCollapsed([], s);
      } else if u == [] {
        TrimAllSpace(" ");
      } else {
        TrimCollapsed(" ", u);
      }
    }
  }

  lemma {:induction false} WordLenAppend(t: string, z: string)
    requires WordLen(t) < |t| || z == [] || IsSpace(z[0])
    ensures WordLen(t + z) == WordLen(t)
    decreases |t|
  {
    if t != [] && !IsSpace(t[0]) {
      assert (t + z)[1..] == t[1..] + z;
      WordLenAppend(t[1..], z);
    } else if t == [] {
      assert t + z == z;
    }
  }

  lemma {:induction false} TrimStartAppend(s: string, ws: string)
    requires AllSpace(ws)
    ensures TrimStart(s + ws) == if TrimStart(s) == [] then [] else TrimStart(s) + ws
    decreases |s|
  {
    if s == [] {
      assert s + ws == ws;
      TrimStartSpaces(ws, []);
      assert ws + [] == ws;
    } else if IsSpace(s[0]) {
      assert (s + ws)[1..] == s[1..] + ws;
      TrimStartAppend(s[1..], ws);
    }
  }

  /** Once a string has something besides white space, what follows it is
      kept whole by `TrimStart`. */
  lemma {:induction false} TrimStartKeepsTail(s: string, z: string)
    requires TrimStart(s) != []
    ensures TrimStart(s + z) == TrimStart(s) + z
    decreases |s|
  {
    if IsSpace(s[0]) {
      assert (s + z)[1..] == s[1..] + z;
      TrimStartKeepsTail(s[1..], z);
    }
  }

  /** Trailing white space adds no word. */
  lemma {:induction false} WordsAppendSpace(s: string, ws: string)
    requires AllSpace(ws)
    ensures Words(s + ws) == Words(s)
    decreases |s|
  {
    var t := TrimStart(s);
    TrimStartAppend(s, ws);
    if t != [] {
      var n := WordLen(t);
      WordLenAppend(t, ws);
      assert (t + ws)[..n] == t[..n];
      assert (t + ws)[n..] == t[n..] + ws;
      WordsAppendSpace(t[n..], ws);
    }
  }

  lemma WordsTrim(s: string)
    ensures Words(Trim(s)) == Words(s)
  {
    var u := TrimStart(s);
    WordsTrimStart(s);
    var e := TrimEnd(u);
    TrimEndShape(u);
    assert u == e + u[|e|..];
    WordsAppendSpace(e, u[|e|..]);
  }

  /** A run of white space separates words: the words on either side of it
      are the words of the whole, whatever the length of the run. */
  lemma {:induction false} WordsAcrossSpace(x: string, ws: string, y: string)
    requires ws != [] && AllSpace(ws)
    ensures Words(x + ws + y) == Words(x) + Words(y)
    decreases |x|
  {
    var t := TrimStart(x);
    if t == [] {
      BlankBeforeSpace(x, ws, y);
    } else {
      var rest := t[WordLen(t)..];
      WordsAcrossSpace(rest, ws, y);
      WordsAcrossWord(x, ws, y);
    }
  }

  /** The step of `WordsAcrossSpace` past the first word of `x`. */
  lemma WordsAcrossWord(x: string, ws: string, y: string)
    requires ws != [] && AllSpace(ws) && TrimStart(x) != []
    requires var t := TrimStart(x); var rest := t[WordLen(t)..];
      Words(rest + ws + y) == Words(rest) + Words(y)
    ensures Words(x + ws + y) == Words(x) + Words(y)
  {
    WordHeadBeforeSpace(x, ws, y);
    WordsStep(x);
  }

  /** `WordHeadAppend` with the white space and what follows it apart. */
  lemma WordHeadBeforeSpace(x: string, ws: string, y: string)
    requires ws != [] && AllSpace(ws) && TrimStart(x) != []
    ensures var t := TrimStart(x); var n := WordLen(t);
      Words(x + ws + y) == [t[..n]] + Words(t[n..] + ws + y)
  {
    var t := TrimStart(x);
    var n := WordLen(t);
    var z := ws + y;
    assert x + ws + y == x + z;
    assert t[n..] + z == t[n..] + ws + y;
    assert Words(x + z) == [t[..n]] + Words(t[n..] + z) by {
      assert z[0] == ws[0];
      WordHeadAppend(x, z);
    }
  }





  /** The first word of `x` stays the first word when white space (or
      nothing) follows `x`. */
  lemma WordHeadAppend(x: string, z: string)
    requires TrimStart(x) != []
    requires z == [] || IsSpace(z[0])
    ensures var t := TrimStart(x);
      var n := WordLen(t);
      n > 0 && Words(x + z) == [t[..n]] + Words(t[n..] + z)
  {
    var t := TrimStart(x);
    var n := WordLen(t);
    assert n > 0;
    assert TrimStart(x + z) == t + z by {
      TrimStartKeepsTail(x, z);
    }
    assert WordLen(t + z) == n by {
      WordLenAppend(t, z);
    }
    SliceAppend(t, z, n);
    WordsStep(x + z);
  }

  lemma SliceAppend(t: string, z: string, n: nat)
    requires n <= |t|
    ensures (t + z)[..n] == t[..n] && (t + z)[n..] == t[n..] + z
  {
  }

  /** One step of `Words`: the first word, then the words after it. */
  lemma WordsStep(s: string)
    requires TrimStart(s) != []
    ensures var t := TrimStart(s);
      Words(s) == [t[..WordLen(t)]] + Words(t[WordLen(t)..])
  {
  }

  /** A blank head followed by white space contributes no words. */
  lemma BlankBeforeSpace(x: string, ws: string, y: string)
    requires AllSpace(ws) && TrimStart(x) == []
    ensures Words(x + ws + y) == Words(x) + Words(y)
  {
    TrimStartShape(x);
    assert x[..|x|] == x;
    assert AllSpace(x + ws);
    TrimStartSpaces(x + ws, y);
    WordsTrimStart(x + ws + y);
    WordsTrimStart(y);
  }

  /** A non-empty string without white space is a single word. */
  lemma WordsOfWord(w: string)
    requires w != [] && NoSpace(w)
    ensures Words(w) == [w]
  {
    assert TrimStart(w) == w;
    WordLenShape(w);
    assert w[..WordLen(w)] == w;
    assert w[WordLen(w)..] == [];
  }

  /** Words joined by single spaces split back into the same words. */
  lemma {:induction false} WordsOfJoin(ws: seq<string>)
    requires forall k :: 0 <= k < |ws| ==> ws[k] != [] && NoSpace(ws[k])
    ensures Words(Join(ws, " ")) == ws
    decreases |ws|
  {
    if |ws| == 1 {
      WordsOfWord(ws[0]);
    } else if |ws| > 1 {
      WordsOfJoin(ws[1..]);
      WordsOfWord(ws[0]);
      WordsAcrossSpace(ws[0], " ", Join(ws[1..], " "));
      assert [ws[0]] + ws[1..] == ws;
    }
  }

  /** Joining one-character strings without a separator spells out their
      characters. */
  lemma {:induction false} JoinSingles(parts: seq<string>, u: string)
    requires |parts| == |u|
    requires forall i :: 0 <= i < |parts| ==> parts[i] == [u[i]]
    ensures Join(parts, []) == u
    decreases |parts|
  {
    if |parts| > 1 {
      JoinSingles(parts[1..], u[1..]);
      assert u == [u[0]] + u[1..];
    }
  }

  /** Every character of a join comes from a part or from the separator. */
  lemma {:induction false} JoinMembers(parts: seq<string>, sep: string, c: char)
    requires c in Join(parts, sep)
    ensures c in sep || exists k :: 0 <= k < |parts| && c in parts[k]
    decreases |parts|
  {
    if |parts| > 1 {
      var rest := Join(parts[1..], sep);
      assert Join(parts, sep) == parts[0] + sep + rest;
      if c in rest {
        JoinMembers(parts[1..], sep, c);
        if !(c in sep) {
          var k :| 0 <= k < |parts| - 1 && c in parts[1..][k];
          assert c in parts[k + 1];
        }
      } else if !(c in sep) {
        assert c in parts[0];
      }
    } else if |parts| == 1 {
      assert c in parts[0];
    }
  }

  // ---------------------------------------------------------------------
  // substring search: `Contains` against its positional definition

  /** `w` occurs in `s` starting at position `i`. */
  predicate OccursAt(s: string, w: string, i: int)
  {
    0 <= i <= |s| - |w| && s[i..i + |w|] == w
  }

  lemma {:induction false} ContainsAt(s: string, w: string)
    ensures Contains(s, w) <==> exists i :: OccursAt(s, w, i)
    decreases |s|
  {
    if StartsWith(s, w) {
      assert OccursAt(s, w, 0);
    } else if s == [] {
      assert forall i :: !OccursAt(s, w, i);
    } else {
      ContainsAt(s[1..], w);
      if Contains(s[1..], w) {
        var i :| OccursAt(s[1..], w, i);
        assert OccursAt(s, w, i + 1);
      }
      if i :| OccursAt(s, w, i) {
        assert i != 0;
        assert OccursAt(s[1..], w, i - 1);
      }
    }
  }

  /** A string holds nothing longer than itself. */
  lemma {:induction false} ContainsFits(s: string, w: string)
    requires Contains(s, w)
    ensures |w| <= |s|
    decreases |s|
  {
    if !StartsWith(s, w) {
      ContainsFits(s[1..], w);
    }
  }

  /** Replacing a pattern that does not occur changes nothing. */
  lemma {:induction false} ReplaceAbsent(s: string, pat: string, rep: string)
    requires pat != []
    requires !Contains(s, pat)
    ensures ReplaceAll(s, pat, rep) == s
    decreases |s|
  {
    if |s| >= |pat| {
      ReplaceAbsent(s[1..], pat, rep);
      assert [s[0]] + s[1..] == s;
    }
  }

  /** An occurrence at the very start is replaced, and the search resumes
      right after it. */
  lemma ReplaceAtStart(pat: string, y: string, rep: string)
    requires pat != []
    ensures ReplaceAll(pat + y, pat, rep) == rep + ReplaceAll(y, pat, rep)
  {
    assert (pat + y)[..|pat|] == pat;
    assert (pat + y)[|pat|..] == y;
  }

  /** The leftmost occurrence is the one replaced: everything before it is
      kept, it becomes `rep`, and the search resumes right after it. */
  lemma {:induction false} ReplaceLeftmost(x: string, pat: string, y: string, rep: string)
    requires pat != []
    requires forall i :: 0 <= i < |x| ==> !OccursAt(x + pat + y, pat, i)
    ensures ReplaceAll(x + pat + y, pat, rep) == x + rep + ReplaceAll(y, pat, rep)
    decreases |x|
  {
    if x == [] {
      assert x + pat + y == pat + y;
      ReplaceAtStart(pat, y, rep);
    } else {
      var s := x + pat + y;
      assert !OccursAt(s, pat, 0);
      assert s[..|pat|] != pat;
      assert s[1..] == x[1..] + pat + y;
      forall i | 0 <= i < |x[1..]|
        ensures !OccursAt(x[1..] + pat + y, pat, i)
      {
        assert !OccursAt(s, pat, i + 1);
        assert s[i + 1..i + 1 + |pat|] == s[1..][i..i + |pat|];
      }
      ReplaceLeftmost(x[1..], pat, y, rep);
      assert s[0] == x[0];
      assert [x[0]] + (x[1..] + rep + ReplaceAll(y, pat, rep)) == x + rep + ReplaceAll(y, pat, rep);
    }
  }

  /** An occurrence that starts after `a` ends lies inside `b`. */
  lemma OccursPast(a: string, b: string, w: string, i: int)
    requires OccursAt(a + b, w, i) && i >= |a|
    ensures OccursAt(b, w, i - |a|)
  {
    assert (a + b)[i..i + |w|] == b[i - |a|..i - |a| + |w|];
  }

  /** A word that occurs neither in `b` nor across the seam after `lead`
      does not occur in `lead + b`. The seam is ruled out when no position
      of `lead` can start the word: its first character differs there, or,
      at position 0, its third. */
  lemma LeadNotStraddled(lead: string, b: string, w: string)
    requires |w| >= 3 && |lead| >= 3
    requires forall i :: 0 <= i < |lead| ==> lead[i] != w[0] || (i == 0 && lead[2] != w[2])
    requires !Contains(b, w)
    ensures !Contains(lead + b, w)
  {
    ContainsAt(b, w);
    ContainsAt(lead + b, w);
    forall i | 0 <= i < |lead|
      ensures !OccursAt(lead + b, w, i)
    {
      assert (lead + b)[i] == lead[i];
      assert (lead + b)[2] == lead[2];
    }
    forall i | |lead| <= i
      ensures !OccursAt(lead + b, w, i)
    {
      if OccursAt(lead + b, w, i) {
        OccursPast(lead, b, w, i);
      }
    }
  }

  /** Replacing one character by another, everywhere, is a character map. */
  lemma {:induction false} ReplaceChar(s: string, g: char, c: char)
    ensures var r := ReplaceAll(s, [g], [c]);
      |r| == |s| && forall i :: 0 <= i < |s| ==> r[i] == (if s[i] == g then c else s[i])
    decreases |s|
  {
    if s != [] {
      ReplaceChar(s[1..], g, c);
    }
  }
}
