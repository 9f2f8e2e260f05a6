/** The pieces of Python's `str` that the program relies on: `isspace`,
    `strip()`, `split()` with no separator and `" ".join(...)`. */
module Text {

  /** Python's `str.isspace` for one character: the characters that
      `str.strip()` and `str.split()` (with no arguments) treat as whitespace. */
  predicate IsSpace(c: char) {
    var n := c as int;
    (0x09 <= n <= 0x0D) || (0x1C <= n <= 0x20) || n == 0x85 || n == 0xA0 ||
    n == 0x1680 || (0x2000 <= n <= 0x200A) || n == 0x2028 || n == 0x2029 ||
    n == 0x202F || n == 0x205F || n == 0x3000
  }

  predicate NoSpace(s: string) {
    forall i :: 0 <= i < |s| ==> !IsSpace(s[i])
  }

  predicate AllSpace(s: string) {
    forall i :: 0 <= i < |s| ==> IsSpace(s[i])
  }

  /** `AllSpace` written as a recursion from the front: the string is empty,
      or its first character is whitespace and so is the rest (`BlankIff`). */
  predicate Blank(s: string) {
    s == [] || (IsSpace(s[0]) && Blank(s[1..]))
  }

  /** Neither the first nor the last character is whitespace. */
  predicate Trimmed(s: string) {
    s == [] || (!IsSpace(s[0]) && !IsSpace(s[|s| - 1]))
  }

  /** `s.lstrip()`: the suffix of `s` left after its leading whitespace. */
  function TrimLeft(s: string): (r: string)
    ensures |r| <= |s| && r == s[|s| - |r|..]
    ensures AllSpace(s[..|s| - |r|])
    ensures r == [] || !IsSpace(r[0])
  {
    if s != [] && IsSpace(s[0]) then TrimLeft(s[1..]) else s
  }

  /** `s.rstrip()`: the prefix of `s` left before its trailing whitespace. */
  function TrimRight(s: string): (r: string)
    ensures |r| <= |s| && r == s[..|r|]
    ensures AllSpace(s[|r|..])
    ensures r == [] || !IsSpace(r[|r| - 1])
  {
    if s != [] && IsSpace(s[|s| - 1]) then
      var init := s[..|s| - 1];
      var r := TrimRight(init);
      assert r == s[..|r|];
      assert s[|r|..] == init[|r|..] + [s[|s| - 1]];
      r
    else s
  }

  /** `s.strip()`: `s` without its leading and trailing whitespace. The result
      is a contiguous piece of `s` cut out between two all-whitespace ends
      (`TrimInfix`). */
  function Trim(s: string): (r: string)
    ensures Trimmed(r) && |r| <= |s|
  {
    var left := TrimLeft(s);
    var r := TrimRight(left);
    assert r != [] ==> r[0] == left[0];
    r
  }

  /** The longest prefix of `s` that holds no whitespace. */
  function LeadingWord(s: string): (w: string)
    ensures |w| <= |s| && w == s[..|w|] && NoSpace(w)
    ensures |w| == |s| || IsSpace(s[|w|])
    ensures s != [] && !IsSpace(s[0]) ==> w != []
  {
    if s == [] || IsSpace(s[0]) then [] else [s[0]] + LeadingWord(s[1..])
  }

  /** Every word is non-empty and holds no whitespace: what `split()` yields. */
  predicate ValidWords(ws: seq<string>) {
    forall i :: 0 <= i < |ws| ==> ws[i] != [] && NoSpace(ws[i])
  }

  /** `s.split()`: the maximal runs of non-whitespace characters, in order. */
  function Words(s: string): (ws: seq<string>)
    ensures ValidWords(ws)
    decreases |s|
  {
    if s == [] then []
    else if IsSpace(s[0]) then Words(s[1..])
    else
      var w := LeadingWord(s);
      [w] + Words(s[|w|..])
  }

  /** `" ".join(ws)`. */
  function JoinSpace(ws: seq<string>): string {
    if ws == [] then []
    else if |ws| == 1 then ws[0]
    else ws[0] + " " + JoinSpace(ws[1..])
  }

  /** `s` with every whitespace character removed: an independent reference
      for what the words of `s` are made of. */
  function RemoveSpaces(s: string): (r: string)
    ensures |r| <= |s| && NoSpace(r)
  {
    if s == [] then []
    else if IsSpace(s[0]) then RemoveSpaces(s[1..])
    else [s[0]] + RemoveSpaces(s[1..])
  }

  /** Words separated by whitespace runs:
      `gaps[0] + ws[0] + gaps[1] + ... + ws[n - 1] + gaps[n]`. */
  function Interleave(ws: seq<string>, gaps: seq<string>): string
    requires |gaps| == |ws| + 1
  {
    if ws == [] then gaps[0] else gaps[0] + (ws[0] + Interleave(ws[1..], gaps[1..]))
  }

  /** One run per place around and between the words, every run whitespace,
      and the runs between two words not empty. */
  predicate ValidGaps(ws: seq<string>, gaps: seq<string>) {
    |gaps| == |ws| + 1 &&
    (forall i :: 0 <= i < |gaps| ==> AllSpace(gaps[i])) &&
    (forall i :: 0 < i < |ws| ==> gaps[i] != [])
  }

  /** The whitespace runs of `s` around and between its words. */
  function GapsOf(s: string): (gaps: seq<string>)
    ensures |gaps| == |Words(s)| + 1
    decreases |s|
  {
    if s == [] then [[]]
    else if IsSpace(s[0]) then
      var g := GapsOf(s[1..]);
      [[s[0]] + g[0]] + g[1..]
    else
      [[]] + GapsOf(s[|LeadingWord(s)|..])
  }

  /** The words laid end to end. */
  function Concat(ws: seq<string>): string {
    if ws == [] then [] else ws[0] + Concat(ws[1..])
  }

  // ---------------------------------------------------------------------
  // Lemmas
  // ---------------------------------------------------------------------

  /** Extending `s` on the right changes its leading word only when `s`
      was a single word to begin with. */
  lemma {:induction false} LeadingWordAppend(s: string, t: string)
    ensures LeadingWord(s + t) == if |LeadingWord(s)| < |s| then LeadingWord(s) else s + LeadingWord(t)
  {
    var st := s + t;
    if s == [] {
      assert st == t;
    } else if IsSpace(s[0]) {
      assert st[0] == s[0];
    } else {
      assert st[0] == s[0] && st[1..] == s[1..] + t;
      LeadingWordAppend(s[1..], t);
      assert LeadingWord(st) == [s[0]] + LeadingWord(s[1..] + t);
      assert LeadingWord(s) == [s[0]] + LeadingWord(s[1..]);
      if |LeadingWord(s)| == |s| {
        assert [s[0]] + (s[1..] + LeadingWord(t)) == s + LeadingWord(t);
      }
    }
  }

  /** Whitespace in front of a string does not change its words. */
  lemma {:induction false} WordsSkipLeadingSpace(a: string, s: string)
    requires AllSpace(a)
    ensures Words(a + s) == Words(s)
  {
    if a == [] {
      assert a + s == s;
    } else {
      assert (a + s)[0] == a[0];
      assert (a + s)[1..] == a[1..] + s;
      WordsSkipLeadingSpace(a[1..], s);
    }
  }

  /** One whitespace character after a string does not change its words. */
  lemma {:induction false} WordsAppendSpace(s: string, c: char)
    requires IsSpace(c)
    ensures Words(s + [c]) == Words(s)
    decreases |s|
  {
    if s == [] {
      assert Words([c]) == Words([]);
    } else if IsSpace(s[0]) {
      assert (s + [c])[1..] == s[1..] + [c];
      WordsAppendSpace(s[1..], c);
    } else {
      var w := LeadingWord(s);
      LeadingWordAppend(s, [c]);
      if |w| < |s| {
        assert LeadingWord(s + [c]) == w;
        assert (s + [c])[|w|..] == s[|w|..] + [c];
        WordsAppendSpace(s[|w|..], c);
      } else {
        assert LeadingWord(s + [c]) == s;
        assert (s + [c])[|s|..] == [c];
        assert Words([c]) == Words([]);
      }
    }
  }

  /** Whitespace after a string does not change its words. */
  lemma {:induction false} WordsSkipTrailingSpace(s: string, b: string)
    requires AllSpace(b)
    ensures Words(s + b) == Words(s)
    decreases |b|
  {
    if b == [] {
      assert s + b == s;
    } else {
      var init := b[..|b| - 1];
      assert s + b == (s + init) + [b[|b| - 1]];
      WordsAppendSpace(s + init, b[|b| - 1]);
      WordsSkipTrailingSpace(s, init);
    }
  }

  lemma {:induction false} WordsOfTrimLeft(s: string)
    ensures Words(TrimLeft(s)) == Words(s)
  {
    if s != [] && IsSpace(s[0]) {
      WordsOfTrimLeft(s[1..]);
    }
  }

  lemma {:induction false} WordsOfTrimRight(s: string)
    ensures Words(TrimRight(s)) == Words(s)
  {
    if s != [] && IsSpace(s[|s| - 1]) {
      assert s == s[..|s| - 1] + [s[|s| - 1]];
      WordsAppendSpace(s[..|s| - 1], s[|s| - 1]);
      WordsOfTrimRight(s[..|s| - 1]);
    }
  }

  /** `s.strip().split() == s.split()`. */
  lemma {:induction false} WordsOfTrim(s: string)
    ensures Words(Trim(s)) == Words(s)
  {
    WordsOfTrimLeft(s);
    WordsOfTrimRight(TrimLeft(s));
  }

  /** A string has no words exactly when it is all whitespace. */
  lemma {:induction false} WordsEmptyIff(s: string)
    ensures Words(s) == [] <==> AllSpace(s)
    decreases |s|
  {
    if s != [] && IsSpace(s[0]) {
      WordsEmptyIff(s[1..]);
      assert AllSpace(s) <==> AllSpace(s[1..]);
    }
  }

  /** `s.strip()` removes whitespace only, and only at the two ends: it is the
      slice `s[i..j]` with nothing but whitespace before `i` and after `j`. */
  lemma {:induction false} TrimInfix(s: string)
    ensures var r := Trim(s);
      exists i :: 0 <= i <= |s| - |r| && s[i..i + |r|] == r && AllSpace(s[..i]) && AllSpace(s[i + |r|..])
  {
    var left := TrimLeft(s);
    var r := TrimRight(left);
    var i := |s| - |left|;
    assert s[i..i + |r|] == r by {
      assert left == s[i..] && r == left[..|r|];
    }
    assert AllSpace(s[i + |r|..]) by {
      assert left == s[i..];
      assert s[i + |r|..] == left[|r|..];
    }
    assert r == Trim(s);
  }

  /** `s.strip()` is empty exactly when `s` is all whitespace. */
  lemma {:induction false} TrimEmptyIff(s: string)
    ensures Trim(s) == [] <==> AllSpace(s)
  {
    var r := Trim(s);
    WordsOfTrim(s);
    WordsEmptyIff(s);
    WordsEmptyIff(r);
    assert Words([]) == [];
    if r != [] {
      assert !IsSpace(r[0]);
    }
  }

  lemma {:induction false} BlankIff(s: string)
    ensures Blank(s) <==> AllSpace(s)
    decreases |s|
  {
    if s != [] {
      BlankIff(s[1..]);
      assert AllSpace(s) <==> IsSpace(s[0]) && AllSpace(s[1..]);
    }
  }

  /** A word followed by a non-empty whitespace run is one token, whatever the
      length of the run. */
  lemma {:induction false} WordsAfterWord(w: string, x: string, t: string)
    requires w != [] && NoSpace(w)
    requires x != [] && AllSpace(x)
    ensures Words(w + x + t) == [w] + Words(t)
  {
    var s := w + x + t;
    assert LeadingWord(s) == w by {
      assert s == w + [x[0]] + (x[1..] + t);
      LeadingWordBeforeSpace(w, x[0], x[1..] + t);
    }
    assert Words(s) == [w] + Words(s[|w|..]) by {
      assert s[0] == w[0];
    }
    assert Words(x + t) == Words(t) by {
      WordsSkipLeadingSpace(x, t);
    }
    assert s[|w|..] == x + t;
  }

  /** Whatever whitespace runs separate valid words, `split()` gives the
      words back. */
  lemma {:induction false} WordsOfInterleave(ws: seq<string>, gaps: seq<string>)
    requires ValidWords(ws) && ValidGaps(ws, gaps)
    ensures Words(Interleave(ws, gaps)) == ws
    decreases |ws|
  {
    if ws == [] {
      WordsEmptyIff(gaps[0]);
    } else {
      var rest := Interleave(ws[1..], gaps[1..]);
      assert ValidWords(ws[1..]);
      assert ValidGaps(ws[1..], gaps[1..]) by {
        assert forall i :: 0 <= i < |gaps| - 1 ==> gaps[1..][i] == gaps[i + 1];
      }
      WordsOfInterleave(ws[1..], gaps[1..]);
      assert Words(gaps[0] + (ws[0] + rest)) == Words(ws[0] + rest) by {
        WordsSkipLeadingSpace(gaps[0], ws[0] + rest);
      }
      if |ws| == 1 {
        assert rest == gaps[1];
        assert Words(ws[0] + rest) == Words(ws[0]) by {
          WordsSkipTrailingSpace(ws[0], gaps[1]);
        }
        WordsOfJoin([ws[0]]);
        assert ws == [ws[0]];
      } else {
        assert ws[1..][1..] == ws[2..] && gaps[1..][1..] == gaps[2..];
        var tail := ws[1] + Interleave(ws[2..], gaps[2..]);
        assert rest == gaps[1] + tail;
        assert Words(ws[0] + rest) == [ws[0]] + Words(tail) by {
          assert ws[0] + rest == ws[0] + gaps[1] + tail;
          WordsAfterWord(ws[0], gaps[1], tail);
        }
        assert Words(rest) == Words(tail) by {
          WordsSkipLeadingSpace(gaps[1], tail);
        }
        assert ws == [ws[0]] + ws[1..];
      }
    }
  }

  /** A word in front of words and runs, with no run before it. */
  lemma {:induction false} InterleaveConsWord(w: string, ws: seq<string>, g: seq<string>)
    requires |g| == |ws| + 1
    ensures Interleave([w] + ws, [[]] + g) == w + Interleave(ws, g)
  {
    assert ([w] + ws)[1..] == ws && ([[]] + g)[1..] == g;
    assert [] + (w + Interleave(ws, g)) == w + Interleave(ws, g);
  }

  lemma {:induction false} ValidGapsConsWord(w: string, ws: seq<string>, g: seq<string>)
    requires ValidGaps(ws, g) && (ws != [] ==> g[0] != [])
    ensures ValidGaps([w] + ws, [[]] + g)
  {
    var gaps := [[]] + g;
    assert forall i :: 0 < i < |gaps| ==> gaps[i] == g[i - 1];
  }

  /** A whitespace character in front of the first run. */
  lemma {:induction false} InterleaveConsSpace(c: char, ws: seq<string>, g: seq<string>)
    requires |g| == |ws| + 1
    ensures Interleave(ws, [[c] + g[0]] + g[1..]) == [c] + Interleave(ws, g)
  {
    var gaps := [[c] + g[0]] + g[1..];
    assert gaps[0] == [c] + g[0];
    if ws != [] {
      var tail := ws[0] + Interleave(ws[1..], g[1..]);
      assert gaps[1..] == g[1..];
      assert Interleave(ws, gaps) == ([c] + g[0]) + tail;
      assert Interleave(ws, g) == g[0] + tail;
      assert ([c] + g[0]) + tail == [c] + (g[0] + tail);
    }
  }

  lemma {:induction false} ValidGapsConsSpace(c: char, ws: seq<string>, g: seq<string>)
    requires IsSpace(c) && ValidGaps(ws, g)
    ensures ValidGaps(ws, [[c] + g[0]] + g[1..])
  {
    var gaps := [[c] + g[0]] + g[1..];
    assert forall i :: 0 < i < |gaps[0]| ==> gaps[0][i] == g[0][i - 1];
    assert forall i :: 0 < i < |gaps| ==> gaps[i] == g[i];
  }

  /** Every string is its words separated by its whitespace runs. */
  lemma {:induction false} InterleaveGapsOf(s: string)
    ensures ValidGaps(Words(s), GapsOf(s)) && s == Interleave(Words(s), GapsOf(s))
    decreases |s|
  {
    if s == [] {
    } else if IsSpace(s[0]) {
      var v := s[1..];
      var ws, g := Words(v), GapsOf(v);
      InterleaveGapsOf(v);
      assert Words(s) == ws && GapsOf(s) == [[s[0]] + g[0]] + g[1..];
      InterleaveConsSpace(s[0], ws, g);
      ValidGapsConsSpace(s[0], ws, g);
      assert s == [s[0]] + v;
    } else {
      var w := LeadingWord(s);
      var u := s[|w|..];
      var ws, g := Words(u), GapsOf(u);
      InterleaveGapsOf(u);
      assert Words(s) == [w] + ws && GapsOf(s) == [[]] + g;
      if ws != [] {
        assert u != [] && IsSpace(u[0]);
        assert g[0] != [];
      }
      InterleaveConsWord(w, ws, g);
      ValidGapsConsWord(w, ws, g);
      assert s == w + u;
    }
  }

  /** `s.split() == ws` exactly when `s` is the words `ws` separated by
      non-empty whitespace runs, with a run of any length, or none, at either
      end. */
  lemma {:induction false} WordsIff(s: string, ws: seq<string>)
    requires ValidWords(ws)
    ensures Words(s) == ws <==> exists gaps :: ValidGaps(ws, gaps) && s == Interleave(ws, gaps)
  {
    if exists gaps :: ValidGaps(ws, gaps) && s == Interleave(ws, gaps) {
      var gaps :| ValidGaps(ws, gaps) && s == Interleave(ws, gaps);
      WordsOfInterleave(ws, gaps);
    }
    if Words(s) == ws {
      InterleaveGapsOf(s);
      assert ValidGaps(ws, GapsOf(s)) && s == Interleave(ws, GapsOf(s));
    }
  }

  /** A single word followed by anything that starts with whitespace keeps
      that word as its leading word. */
  lemma {:induction false} LeadingWordBeforeSpace(w: string, c: char, t: string)
    requires NoSpace(w) && IsSpace(c)
    ensures LeadingWord(w + [c] + t) == w
  {
    LeadingWordOfWord(w);
    LeadingWordAppend(w, [c] + t);
    assert w + [c] + t == w + ([c] + t);
  }

  lemma {:induction false} LeadingWordOfWord(w: string)
    requires NoSpace(w)
    ensures LeadingWord(w) == w
  {
    if w != [] {
      LeadingWordOfWord(w[1..]);
    }
  }

  /** `" ".join(ws).split() == ws` for any words `split()` could have made:
      joining with single spaces and splitting again gives the words back. */
  lemma {:induction false} WordsOfJoin(ws: seq<string>)
    requires ValidWords(ws)
    ensures Words(JoinSpace(ws)) == ws
  {
    if ws == [] {
    } else if |ws| == 1 {
      var w := ws[0];
      LeadingWordOfWord(w);
      assert w[|w|..] == [];
    } else {
      var w, rest := ws[0], JoinSpace(ws[1..]);
      var s := w + " " + rest;
      assert s == JoinSpace(ws);
      LeadingWordBeforeSpace(w, ' ', rest);
      assert s[|w|..] == [' '] + rest;
      assert Words([' '] + rest) == Words(rest) by {
        assert ([' '] + rest)[1..] == rest;
      }
      WordsOfJoin(ws[1..]);
    }
  }

  /** Joining valid words gives a string with no whitespace at either end. */
  lemma {:induction false} JoinSpaceTrimmed(ws: seq<string>)
    requires ValidWords(ws)
    ensures Trimmed(JoinSpace(ws))
    ensures ws != [] ==> JoinSpace(ws) != []
  {
    if |ws| > 1 {
      JoinSpaceTrimmed(ws[1..]);
      var s := JoinSpace(ws);
      assert s == ws[0] + " " + JoinSpace(ws[1..]);
      assert s[0] == ws[0][0];
      assert s[|s| - 1] == JoinSpace(ws[1..])[|JoinSpace(ws[1..])| - 1];
    }
  }

  lemma {:induction false} RemoveSpacesAppend(a: string, b: string)
    ensures RemoveSpaces(a + b) == RemoveSpaces(a) + RemoveSpaces(b)
  {
    if a == [] {
      assert a + b == b;
    } else {
      assert (a + b)[1..] == a[1..] + b;
      RemoveSpacesAppend(a[1..], b);
    }
  }

  lemma {:induction false} RemoveSpacesOfWord(w: string)
    requires NoSpace(w)
    ensures RemoveSpaces(w) == w
  {
    if w != [] {
      RemoveSpacesOfWord(w[1..]);
    }
  }

  /** The words of `s`, laid end to end, are exactly the non-whitespace
      characters of `s` in order: `split()` drops whitespace and nothing else. */
  lemma {:induction false} ConcatWords(s: string)
    ensures Concat(Words(s)) == RemoveSpaces(s)
    decreases |s|
  {
    if s == [] {
    } else if IsSpace(s[0]) {
      ConcatWords(s[1..]);
    } else {
      var w := LeadingWord(s);
      assert s == w + s[|w|..];
      RemoveSpacesAppend(w, s[|w|..]);
      RemoveSpacesOfWord(w);
      ConcatWords(s[|w|..]);
      assert Words(s)[1..] == Words(s[|w|..]);
    }
  }
}
