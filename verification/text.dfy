/** The collector's text sanitiser `clean_text`: whitespace collapsing as done by
    `' '.join(text.split())`, followed by deleting the characters `[`, `]`, `(` and `)`. */
module Text {
  import opened Seqs

  /** The characters Python's `str.split()` (no argument) treats as separators. */
  predicate IsSpace(c: char)
  {
    || c == ' '
    || '\t' <= c <= '\r'
    || '\U{1c}' <= c <= '\U{1f}'
    || c == '\U{85}' || c == '\U{a0}' || c == '\U{1680}'
    || '\U{2000}' <= c <= '\U{200a}'
    || c == '\U{2028}' || c == '\U{2029}' || c == '\U{202f}' || c == '\U{205f}' || c == '\U{3000}'
  }

  predicate NotSpace(c: char) { !IsSpace(c) }

  /** The four characters `clean_text` deletes. */
  predicate IsBracket(c: char) { c == '[' || c == ']' || c == '(' || c == ')' }

  predicate NotBracket(c: char) { !IsBracket(c) }

  /** Characters that survive `clean_text` as non-space output. */
  predicate Kept(c: char) { !IsSpace(c) && !IsBracket(c) }

  /** A word as produced by `str.split()`: a non-empty run of non-whitespace. */
  predicate IsWord(w: string)
  {
    |w| > 0 && forall i :: 0 <= i < |w| ==> !IsSpace(w[i])
  }

  /** Length of the maximal non-whitespace prefix of `s`. */
  function RunLength(s: string): (n: nat)
    ensures n <= |s|
    ensures forall i :: 0 <= i < n ==> !IsSpace(s[i])
    ensures n < |s| ==> IsSpace(s[n])
  {
    if |s| == 0 || IsSpace(s[0]) then 0 else 1 + RunLength(s[1..])
  }

  /** `s.split()`: the maximal non-whitespace runs of `s`, left to right. */
  function Words(s: string): (ws: seq<string>)
    ensures forall k :: 0 <= k < |ws| ==> IsWord(ws[k])
    decreases |s|
  {
    if |s| == 0 then []
    else if IsSpace(s[0]) then Words(s[1..])
    else
      var n := RunLength(s);
      [s[..n]] + Words(s[n..])
  }

  /** `' '.join(ws)`. */
  function Join(ws: seq<string>): string
  {
    if |ws| == 0 then ""
    else if |ws| == 1 then ws[0]
    else ws[0] + " " + Join(ws[1..])
  }

  /** Whitespace collapsing: `' '.join(s.split())`. */
  function Collapse(s: string): string
  {
    Join(Words(s))
  }

  /** `s.replace(ch, '')`. */
  function RemoveChar(s: string, ch: char): string
  {
    if |s| == 0 then ""
    else (if s[0] == ch then "" else [s[0]]) + RemoveChar(s[1..], ch)
  }

  /** The four chained `replace` calls of `clean_text`. */
  function StripBrackets(s: string): string
  {
    RemoveChar(RemoveChar(RemoveChar(RemoveChar(s, '['), ']'), '('), ')')
  }

  /** `clean_text`. */
  function CleanText(text: string): string
  {
    StripBrackets(Collapse(text))
  }

  /** Reference count of words: the positions where a non-whitespace character follows
      whitespace or the start of the text. `atBoundary` says whether the previous
      character was whitespace (or there was none). */
  function CountRuns(s: string, atBoundary: bool): nat
  {
    if |s| == 0 then 0
    else if IsSpace(s[0]) then CountRuns(s[1..], true)
    else (if atBoundary then 1 else 0) + CountRuns(s[1..], false)
  }

  // ---------------------------------------------------------------------------
  // str.split()

  /** Splitting loses exactly the whitespace: the words, concatenated, are the
      non-whitespace characters of the input in order. */
  lemma {:induction false} WordsKeepNonSpace(s: string)
    ensures Flatten(Words(s)) == Filter(s, NotSpace)
    decreases |s|
  {
    if |s| == 0 {
    } else if IsSpace(s[0]) {
      WordsKeepNonSpace(s[1..]);
    } else {
      var n := RunLength(s);
      assert s == s[..n] + s[n..];
      FlattenCons(s[..n], Words(s[n..]));
      FilterConcat(s[..n], s[n..], NotSpace);
      FilterKeepsAll(s[..n], NotSpace);
      WordsKeepNonSpace(s[n..]);
    }
  }

  lemma {:induction false} CountRunsInsideRun(t: string)
    ensures CountRuns(t, false) == CountRuns(t[RunLength(t)..], true)
    decreases |t|
  {
    if |t| == 0 || IsSpace(t[0]) {
    } else {
      CountRunsInsideRun(t[1..]);
      assert t[1..][RunLength(t[1..])..] == t[RunLength(t)..];
    }
  }

  /** The number of words `split()` returns is the number of maximal non-whitespace runs. */
  lemma {:induction false} WordCountIsRunCount(s: string)
    ensures |Words(s)| == CountRuns(s, true)
    decreases |s|
  {
    if |s| == 0 {
    } else if IsSpace(s[0]) {
      WordCountIsRunCount(s[1..]);
    } else {
      var n := RunLength(s);
      WordCountIsRunCount(s[n..]);
      CountRunsInsideRun(s[1..]);
      assert s[1..][RunLength(s[1..])..] == s[n..];
    }
  }

  // ---------------------------------------------------------------------------
  // ' '.join and the round trip

  lemma LeadingSpaceSkipped(x: string)
    ensures Words(" " + x) == Words(x)
  {
    assert (" " + x)[1..] == x;
  }

  lemma RunOfWordThenSpace(w: string, rest: string)
    requires IsWord(w)
    ensures RunLength(w + " " + rest) == |w|
  {
    var j := w + " " + rest;
    assert j[|w|] == ' ';
  }

  lemma RunOfWord(w: string)
    requires IsWord(w)
    ensures RunLength(w) == |w|
  {
  }

  /** Splitting a space-joined list of words gives the words back. */
  lemma {:induction false} SplitJoinRoundTrip(ws: seq<string>)
    requires forall k :: 0 <= k < |ws| ==> IsWord(ws[k])
    ensures Words(Join(ws)) == ws
  {
    if |ws| == 0 {
    } else if |ws| == 1 {
      var w := ws[0];
      RunOfWord(w);
      assert w[..|w|] == w;
      assert w[|w|..] == "";
    } else {
      var w, rest := ws[0], Join(ws[1..]);
      var j := w + " " + rest;
      assert Join(ws) == j;
      RunOfWordThenSpace(w, rest);
      assert j[..|w|] == w;
      assert j[|w|..] == " " + rest;
      LeadingSpaceSkipped(rest);
      SplitJoinRoundTrip(ws[1..]);
      assert ws == [w] + ws[1..];
    }
  }

  /** Whitespace collapsing is idempotent. */
  lemma CollapseIdempotent(s: string)
    ensures Collapse(Collapse(s)) == Collapse(s)
  {
    SplitJoinRoundTrip(Words(s));
  }

  /** Collapsing keeps the non-whitespace characters, in order. */
  lemma CollapseKeepsNonSpace(s: string)
    ensures Filter(Collapse(s), NotSpace) == Filter(s, NotSpace)
  {
    SplitJoinRoundTrip(Words(s));
    WordsKeepNonSpace(Collapse(s));
    WordsKeepNonSpace(s);
  }

  /** A collapsed text: its only whitespace is single `' '` characters strictly between
      two non-whitespace characters. */
  predicate Collapsed(t: string)
  {
    forall i :: 0 <= i < |t| && IsSpace(t[i]) ==>
      t[i] == ' ' && 0 < i < |t| - 1 && !IsSpace(t[i - 1]) && !IsSpace(t[i + 1])
  }

  lemma {:induction false} JoinIsCollapsed(ws: seq<string>)
    requires forall k :: 0 <= k < |ws| ==> IsWord(ws[k])
    ensures Collapsed(Join(ws))
    ensures |ws| > 0 ==> |Join(ws)| > 0 && !IsSpace(Join(ws)[0]) && !IsSpace(Join(ws)[|Join(ws)| - 1])
  {
    if |ws| == 1 {
    } else if |ws| > 1 {
      var w, rest := ws[0], Join(ws[1..]);
      JoinIsCollapsed(ws[1..]);
      var j := w + " " + rest;
      assert Join(ws) == j;
      forall i | 0 <= i < |j| && IsSpace(j[i])
        ensures j[i] == ' ' && 0 < i < |j| - 1 && !IsSpace(j[i - 1]) && !IsSpace(j[i + 1])
      {
        if i > |w| {
          assert j[i] == rest[i - |w| - 1];
          if i + 1 < |j| {
            assert j[i + 1] == rest[i - |w|];
          }
        }
      }
    }
  }

  /** Collapsing yields a collapsed text. */
  lemma CollapseIsCollapsed(s: string)
    ensures Collapsed(Collapse(s))
  {
    JoinIsCollapsed(Words(s));
  }

  /** A collapsed text is its own collapse. */
  lemma {:induction false} CollapsedIsFixpoint(t: string)
    requires Collapsed(t)
    ensures Collapse(t) == t
    decreases |t|
  {
    if |t| > 0 {
      var n := RunLength(t);
      var w := t[..n];
      if n == |t| {
        assert w == t;
        WordAlone(t);
      } else {
        var rest := CollapsedTail(t, n);
        CollapsedIsFixpoint(rest);
        SplitsInto(t, w, " " + rest);
        LeadingSpaceSkipped(rest);
        JoinCons(w, Words(rest));
      }
    }
  }

  /** A collapsed text with a space after its first word continues, past that single
      space, with a collapsed non-empty text. */
  lemma CollapsedTail(t: string, n: nat) returns (rest: string)
    requires Collapsed(t) && n == RunLength(t) < |t|
    ensures rest == t[n + 1..] && |rest| > 0 && t == t[..n] + (" " + rest)
    ensures IsWord(t[..n]) && Collapsed(rest)
  {
    rest := t[n + 1..];
    forall i | 0 <= i < |rest| && IsSpace(rest[i])
      ensures rest[i] == ' ' && 0 < i < |rest| - 1 && !IsSpace(rest[i - 1]) && !IsSpace(rest[i + 1])
    {
      assert rest[i] == t[n + 1 + i];
      if i > 0 {
        assert rest[i - 1] == t[n + i];
      }
      if i + 1 < |rest| {
        assert rest[i + 1] == t[n + 2 + i];
      }
    }
  }

  lemma JoinCons(w: string, ws: seq<string>)
    requires |ws| > 0
    ensures Join([w] + ws) == w + " " + Join(ws)
  {
    assert ([w] + ws)[1..] == ws;
  }

  /** Collapsing leaves a text unchanged exactly when the text is collapsed. */
  lemma CollapseFixpointIff(t: string)
    ensures Collapse(t) == t <==> Collapsed(t)
  {
    if Collapsed(t) {
      CollapsedIsFixpoint(t);
    } else {
      CollapseIsCollapsed(t);
    }
  }

  // ---------------------------------------------------------------------------
  // Bracket removal

  lemma {:induction false} RemoveCharConcat(a: string, b: string, ch: char)
    ensures RemoveChar(a + b, ch) == RemoveChar(a, ch) + RemoveChar(b, ch)
  {
    if |a| == 0 {
      assert a + b == b;
    } else {
      assert (a + b)[1..] == a[1..] + b;
      RemoveCharConcat(a[1..], b, ch);
    }
  }

  lemma StripBracketsConcat(a: string, b: string)
    ensures StripBrackets(a + b) == StripBrackets(a) + StripBrackets(b)
  {
    var a1, b1 := RemoveChar(a, '['), RemoveChar(b, '[');
    var a2, b2 := RemoveChar(a1, ']'), RemoveChar(b1, ']');
    var a3, b3 := RemoveChar(a2, '('), RemoveChar(b2, '(');
    RemoveCharConcat(a, b, '[');
    RemoveCharConcat(a1, b1, ']');
    RemoveCharConcat(a2, b2, '(');
    RemoveCharConcat(a3, b3, ')');
  }

  lemma RemoveCharSingle(c: char, ch: char)
    ensures RemoveChar([c], ch) == if c == ch then "" else [c]
  {
    assert [c][1..] == "";
  }

  lemma StripBracketsSingle(c: char)
    ensures StripBrackets([c]) == if IsBracket(c) then "" else [c]
  {
    RemoveCharSingle(c, '[');
    RemoveCharSingle(c, ']');
    RemoveCharSingle(c, '(');
    RemoveCharSingle(c, ')');
    assert RemoveChar("", ']') == "";
    assert RemoveChar("", '(') == "";
    assert RemoveChar("", ')') == "";
  }

  /** The four chained `replace` calls delete exactly the bracket characters and keep
      every other character in order. */
  lemma {:induction false} StripBracketsIsFilter(s: string)
    ensures StripBrackets(s) == Filter(s, NotBracket)
  {
    if |s| > 0 {
      assert s == [s[0]] + s[1..];
      StripBracketsConcat([s[0]], s[1..]);
      StripBracketsSingle(s[0]);
      StripBracketsIsFilter(s[1..]);
    }
  }

  // ---------------------------------------------------------------------------
  // clean_text

  /** What `clean_text` guarantees: no brackets, no whitespace but `' '`, and its
      non-space characters are exactly the input's non-whitespace, non-bracket
      characters, in the same order. */
  lemma CleanTextSpec(s: string)
    ensures forall i :: 0 <= i < |CleanText(s)| ==> !IsBracket(CleanText(s)[i])
    ensures forall i :: 0 <= i < |CleanText(s)| && IsSpace(CleanText(s)[i]) ==> CleanText(s)[i] == ' '
    ensures Filter(CleanText(s), NotSpace) == Filter(s, Kept)
  {
    var c := Collapse(s);
    var r := CleanText(s);
    StripBracketsIsFilter(c);
    assert r == Filter(c, NotBracket);
    CollapseIsCollapsed(s);
    forall i | 0 <= i < |r| && IsSpace(r[i])
      ensures r[i] == ' '
    {
      assert r[i] in c;
    }
    FilterFilter(c, NotBracket, NotSpace, Kept);
    FilterFilter(c, NotSpace, NotBracket, Kept);
    CollapseKeepsNonSpace(s);
    FilterFilter(s, NotSpace, NotBracket, Kept);
  }

  /** One step of `split()` on a text that starts with the word `w` followed by `rest`. */
  lemma SplitsInto(s: string, w: string, rest: string)
    requires s == w + rest && IsWord(w)
    requires |rest| == 0 || IsSpace(rest[0])
    ensures Words(s) == [w] + Words(rest)
  {
    var n := RunLength(s);
    assert forall i :: 0 <= i < |w| ==> s[i] == w[i];
    if |rest| > 0 {
      assert s[|w|] == rest[0];
    }
    assert s[..n] == w;
    assert s[n..] == rest;
  }

  lemma StripBracketFree(s: string)
    requires forall i :: 0 <= i < |s| ==> !IsBracket(s[i])
    ensures StripBrackets(s) == s
  {
    StripBracketsIsFilter(s);
    FilterKeepsAll(s, NotBracket);
  }

  /** Deleting one bracket from between two bracket-free texts just joins them. */
  lemma StripOneBracket(a: string, c: char, b: string)
    requires IsBracket(c)
    requires forall i :: 0 <= i < |a| ==> !IsBracket(a[i])
    requires forall i :: 0 <= i < |b| ==> !IsBracket(b[i])
    ensures StripBrackets(a + [c] + b) == a + b
  {
    StripBracketsConcat(a + [c], b);
    StripBracketsConcat(a, [c]);
    StripBracketsSingle(c);
    StripBracketFree(a);
    StripBracketFree(b);
  }

  lemma JoinTwo(x: string, y: string)
    ensures Join([x, y]) == x + " " + y
  {
    assert [x, y][1..] == [y];
  }

  lemma JoinThree(x: string, y: string, z: string)
    ensures Join([x, y, z]) == x + " " + y + " " + z
  {
    assert [x, y, z][1..] == [y, z];
    JoinTwo(y, z);
  }

  lemma WordAlone(y: string)
    requires IsWord(y)
    ensures Words(y) == [y] && Words(" " + y) == [y]
  {
    SplitsInto(y, y, "");
    LeadingSpaceSkipped(y);
  }

  /** One-step split of a word followed by a space and a text that splits into `ws`. */
  lemma WordThenSpace(x: string, t: string, ws: seq<string>)
    requires IsWord(x) && Words(t) == ws
    ensures Words(x + (" " + t)) == [x] + ws
  {
    var t1 := " " + t;
    LeadingSpaceSkipped(t);
    SplitsInto(x + t1, x, t1);
  }

  lemma {:induction false} SplitAroundBracket(x: string, c: char, y: string)
    requires IsWord(x) && IsWord(y) && IsBracket(c)
    ensures Words(x + " " + [c] + " " + y) == [x, [c], y]
  {
    WordAlone(y);
    BracketIsWord(c);
    WordThenSpace([c], y, [y]);
    WordThenSpace(x, [c] + (" " + y), [[c], y]);
    RegroupAroundBracket(x, c, y);
  }

  // `BracketIsWord` and `RegroupAroundBracket` state single steps of
  // `SplitAroundBracket`; kept as separate lemmas so that proof stays small for the solver.
  lemma BracketIsWord(c: char)
    requires IsBracket(c)
    ensures IsWord([c])
  {
  }

  lemma RegroupAroundBracket(x: string, c: char, y: string)
    ensures x + " " + [c] + " " + y == x + (" " + ([c] + (" " + y)))
  {
  }

  lemma {:induction false} SplitDoubleSpace(x: string, y: string)
    requires IsWord(x) && IsWord(y)
    ensures Words(x + "  " + y) == [x, y]
  {
    WordAlone(y);
    WordThenSpace(x, " " + y, [y]);
    assert x + "  " + y == x + (" " + (" " + y));
  }

  /** A bracket standing alone between two words leaves a double space behind, which
      only a second pass collapses: `clean_text` is not idempotent. */
  lemma {:induction false} LoneBracketLeavesDoubleSpace(x: string, c: char, y: string)
    requires IsWord(x) && IsWord(y) && IsBracket(c)
    requires forall i :: 0 <= i < |x| ==> !IsBracket(x[i])
    requires forall i :: 0 <= i < |y| ==> !IsBracket(y[i])
    ensures CleanText(x + " " + [c] + " " + y) == x + "  " + y
    ensures CleanText(x + "  " + y) == x + " " + y
    ensures CleanText(CleanText(x + " " + [c] + " " + y)) != CleanText(x + " " + [c] + " " + y)
  {
    var s := x + " " + [c] + " " + y;
    SplitAroundBracket(x, c, y);
    JoinThree(x, [c], y);
    assert Collapse(s) == (x + " ") + [c] + (" " + y);
    StripOneBracket(x + " ", c, " " + y);
    assert CleanText(s) == x + "  " + y;
    SplitDoubleSpace(x, y);
    JoinTwo(x, y);
    StripBracketFree(x + " " + y);
    assert |x + "  " + y| != |x + " " + y|;
  }

  /** The smallest instance: `"a ( b"` cleans to `"a  b"`, which cleans to `"a b"`. */
  lemma CleanTextNotIdempotent()
    ensures CleanText("a ( b") == "a  b"
    ensures CleanText("a  b") == "a b"
  {
    LoneBracketLeavesDoubleSpace("a", '(', "b");
    assert "a" + " " + ['('] + " " + "b" == "a ( b";
    assert "a" + "  " + "b" == "a  b";
    assert "a" + " " + "b" == "a b";
  }

  lemma {:induction false} WordsBracketFree(s: string)
    requires forall i :: 0 <= i < |s| ==> !IsBracket(s[i])
    ensures forall k, i :: 0 <= k < |Words(s)| && 0 <= i < |Words(s)[k]| ==> !IsBracket(Words(s)[k][i])
    decreases |s|
  {
    if |s| > 0 {
      if IsSpace(s[0]) {
        WordsBracketFree(s[1..]);
      } else {
        WordsBracketFree(s[RunLength(s)..]);
      }
    }
  }

  lemma {:induction false} JoinBracketFree(ws: seq<string>)
    requires forall k, i :: 0 <= k < |ws| && 0 <= i < |ws[k]| ==> !IsBracket(ws[k][i])
    ensures forall i :: 0 <= i < |Join(ws)| ==> !IsBracket(Join(ws)[i])
  {
    if |ws| > 1 {
      JoinBracketFree(ws[1..]);
      var j := ws[0] + " " + Join(ws[1..]);
      assert Join(ws) == j;
      forall i | 0 <= i < |j| ensures !IsBracket(j[i]) {
        if i < |ws[0]| {
          assert j[i] == ws[0][i];
        } else if i > |ws[0]| {
          assert j[i] == Join(ws[1..])[i - |ws[0]| - 1];
        }
      }
    }
  }

  lemma CleanBracketFreeIsCollapse(s: string)
    requires forall i :: 0 <= i < |s| ==> !IsBracket(s[i])
    ensures CleanText(s) == Collapse(s)
  {
    WordsBracketFree(s);
    JoinBracketFree(Words(s));
    StripBracketsIsFilter(Collapse(s));
    FilterKeepsAll(Collapse(s), NotBracket);
  }

  /** A second pass of `clean_text` only re-collapses whitespace, and from then on the
      text no longer changes: three passes equal two. */
  lemma CleanTextStableAfterTwoPasses(s: string)
    ensures CleanText(CleanText(s)) == Collapse(CleanText(s))
    ensures CleanText(CleanText(CleanText(s))) == CleanText(CleanText(s))
  {
    var once := CleanText(s);
    CleanTextSpec(s);
    CleanBracketFreeIsCollapse(once);
    var twice := Collapse(once);
    WordsBracketFree(once);
    JoinBracketFree(Words(once));
    CleanBracketFreeIsCollapse(twice);
    CollapseIdempotent(once);
  }
}
