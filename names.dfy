/** `split_name`: a full name cut into a first name and the rest. */
module Names {
  import opened Text

  /** `split_name(full_name)`: the whitespace-separated tokens of the stripped
      name; no tokens give two empty strings, one token gives that token and an
      empty last name, more give the first token and the remaining tokens
      joined by single spaces. */
  function SplitName(fullName: string): (r: (string, string))
    ensures NoSpace(r.0) && Trimmed(r.1)
    ensures r.0 == [] ==> r.1 == []
  {
    var parts := Words(Trim(fullName));
    if |parts| == 0 then ("", "")
    else if |parts| == 1 then (parts[0], "")
    else
      JoinSpaceTrimmed(parts[1..]);
      (parts[0], JoinSpace(parts[1..]))
  }

  /** The first name is empty exactly when the name is blank, and then both
      parts are empty. */
  lemma {:induction false} SplitNameBlank(fullName: string)
    ensures SplitName(fullName).0 == [] <==> AllSpace(fullName)
    ensures AllSpace(fullName) ==> SplitName(fullName) == ("", "")
  {
    WordsOfTrim(fullName);
    WordsEmptyIff(fullName);
  }

  /** A single word with any whitespace around it comes back as the first
      name, with an empty last name. */
  lemma {:induction false} SplitNameSingleWord(before: string, w: string, after: string)
    requires AllSpace(before) && AllSpace(after)
    requires w != [] && NoSpace(w)
    ensures SplitName(before + w + after) == (w, "")
  {
    var s := before + w + after;
    assert s == before + (w + after);
    WordsOfTrim(s);
    WordsSkipLeadingSpace(before, w + after);
    WordsSkipTrailingSpace(w, after);
    WordsOfJoin([w]);
  }

  /** In terms of the tokens of the name: the first name is the first token,
      the last name splits into exactly the remaining tokens, and the two put
      back together with one space are the name with its whitespace
      normalised. */
  lemma {:induction false} SplitNameWords(fullName: string)
    ensures var ws := Words(fullName);
      var (first, last) := SplitName(fullName);
      (ws == [] ==> first == [] && last == []) &&
      (ws != [] ==> first == ws[0] && Words(last) == ws[1..]) &&
      (if last == [] then first else first + " " + last) == JoinSpace(ws)
  {
    var ws := Words(fullName);
    WordsOfTrim(fullName);
    if |ws| > 1 {
      WordsOfJoin(ws[1..]);
      JoinSpaceTrimmed(ws[1..]);
    } else if |ws| == 1 {
      assert Words(JoinSpace(ws[1..])) == [];
    }
  }

  /** `split_name` depends on the tokens of the name only: two names with the
      same tokens split the same way. By `WordsIff`, two names have the same
      tokens exactly when they differ only in their whitespace runs. */
  lemma {:induction false} SplitNameWhitespaceInsensitive(s: string, t: string)
    requires Words(s) == Words(t)
    ensures SplitName(s) == SplitName(t)
  {
    WordsOfTrim(s);
    WordsOfTrim(t);
  }

  /** `split_name` in terms of the tokens of the name. */
  lemma {:induction false} SplitNameOfWords(fullName: string)
    ensures var ws, r := Words(fullName), SplitName(fullName);
      (ws == [] ==> r == ("", "")) &&
      (ws != [] ==> r == (ws[0], JoinSpace(ws[1..])))
  {
    WordsOfTrim(fullName);
  }

  /** A name made of the words `ws`, with any whitespace runs before, between
      and after them, splits into the first word and the other words joined by
      single spaces; `("", "")` when there are no words. So adding, removing or
      changing whitespace runs leaves the result unchanged. */
  lemma {:induction false} SplitNameSpacing(ws: seq<string>, gaps: seq<string>)
    requires ValidWords(ws) && ValidGaps(ws, gaps)
    ensures var r := SplitName(Interleave(ws, gaps));
      (ws == [] ==> r == ("", "")) &&
      (ws != [] ==> r == (ws[0], JoinSpace(ws[1..])))
  {
    var fullName := Interleave(ws, gaps);
    WordsOfInterleave(ws, gaps);
    SplitNameOfWords(fullName);
  }

  /** `SplitNameRejoin` for a blank name. */
  lemma {:induction false} RejoinBlank(fullName: string)
    requires SplitName(fullName).0 == []
    ensures var r := SplitName(fullName);
      SplitName(r.0 + " " + r.1) == r
  {
    var r := SplitName(fullName);
    var joined := r.0 + " " + r.1;
    assert AllSpace(joined) by {
      assert joined == [' '];
    }
    SplitNameBlank(joined);
  }

  /** `SplitNameRejoin` for a single-word name. */
  lemma {:induction false} RejoinSingleWord(fullName: string)
    requires SplitName(fullName).0 != [] && SplitName(fullName).1 == []
    ensures var r := SplitName(fullName);
      SplitName(r.0 + " " + r.1) == r
  {
    var r := SplitName(fullName);
    assert r.0 + " " + r.1 == [] + r.0 + [' '];
    SplitNameSingleWord([], r.0, [' ']);
  }

  /** `SplitNameRejoin` for a name of two or more words. */
  lemma {:induction false} RejoinWords(fullName: string)
    requires SplitName(fullName).1 != []
    ensures var r := SplitName(fullName);
      SplitName(r.0 + " " + r.1) == r
  {
    var r := SplitName(fullName);
    var ws := Words(fullName);
    var joined := r.0 + " " + r.1;
    assert joined == JoinSpace(ws) by {
      SplitNameWords(fullName);
    }
    assert Words(joined) == ws by {
      WordsOfJoin(ws);
    }
    SplitNameWhitespaceInsensitive(joined, fullName);
  }

  /** Joining a result back with one space and splitting again gives the same
      result. */
  lemma {:induction false} SplitNameRejoin(fullName: string)
    ensures var r := SplitName(fullName);
      SplitName(r.0 + " " + r.1) == r
  {
    var r := SplitName(fullName);
    if r.0 == [] {
      RejoinBlank(fullName);
    } else if r.1 == [] {
      RejoinSingleWord(fullName);
    } else {
      RejoinWords(fullName);
    }
  }
}
