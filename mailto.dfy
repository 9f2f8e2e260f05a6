/** The `mailto:` link that `open_outlook_email` hands to the operating
    system, in the style of section 2 of RFC 6068: the recipient as it is,
    then the percent-encoded subject and body as query fields. */
module Mailto {
  import opened Wrappers
  import opened Percent

  /** A message as the mail client should fill it in. */
  datatype Message = Message(recipient: string, subject: string, body: string)

  /** `f"mailto:{recipient}?subject={quote(subject)}&body={quote(body)}"`. */
  function Link(recipient: string, subject: string, body: string): string {
    "mailto:" + (recipient + ("?subject=" + (Quote(subject) + ("&body=" + Quote(body)))))
  }

  /** The position of the first `c` in `s`, if there is one. */
  function IndexOf(s: string, c: char): (r: Option<nat>)
    ensures r.Some? ==> r.value < |s| && s[r.value] == c && c !in s[..r.value]
    ensures r.None? <==> c !in s
  {
    if s == [] then None
    else if s[0] == c then Some(0)
    else match IndexOf(s[1..], c)
      case None => None
      case Some(i) => Some(i + 1)
  }

  /** `s` without the prefix `p`, if it starts with `p`. */
  function StripPrefix(p: string, s: string): (r: Option<string>)
    ensures r.Some? ==> s == p + r.value
  {
    if |s| >= |p| && s[..|p|] == p then Some(s[|p|..]) else None
  }

  /** `s` cut at its first `c`, the `c` itself dropped. */
  function CutAt(s: string, c: char): (r: Option<(string, string)>)
    ensures r.Some? ==> s == r.value.0 + ([c] + r.value.1) && c !in r.value.0
    ensures r.None? <==> c !in s
  {
    match IndexOf(s, c)
    case None => None
    case Some(i) =>
      assert s == s[..i] + ([c] + s[i + 1..]);
      Some((s[..i], s[i + 1..]))
  }

  /** Cuts a link into the recipient and the still encoded subject and body,
      as a mail client reads it: the recipient runs to the first `?`, the
      subject to the first `&` after it. */
  function SplitLink(link: string): Option<(string, string, string)> {
    match StripPrefix("mailto:", link)
    case None => None
    case Some(rest) =>
      match CutAt(rest, '?')
      case None => None
      case Some((recipient, query)) =>
        match StripPrefix("subject=", query)
        case None => None
        case Some(fields) =>
          match CutAt(fields, '&')
          case None => None
          case Some((subject, tail)) =>
            match StripPrefix("body=", tail)
            case None => None
            case Some(body) => Some((recipient, subject, body))
  }

  /** Reads a link back into a message by cutting it at its separators and
      percent-decoding the subject and body. This reader takes the recipient
      as it stands: it neither decodes it nor stops at a `#`. */
  function ParseLink(link: string): Option<Message> {
    match SplitLink(link)
    case None => None
    case Some((recipient, subject, body)) =>
      match (Unquote(subject), Unquote(body))
      case (Some(s), Some(b)) => Some(Message(recipient, s, b))
      case _ => None
  }

  // ---------------------------------------------------------------------
  // Lemmas
  // ---------------------------------------------------------------------

  lemma {:induction false} StripPrefixOf(p: string, t: string)
    ensures StripPrefix(p, p + t) == Some(t)
  {
    assert (p + t)[..|p|] == p;
    assert (p + t)[|p|..] == t;
  }

  lemma {:induction false} IndexOfFirst(a: string, c: char, b: string)
    requires c !in a
    ensures IndexOf(a + ([c] + b), c) == Some(|a|)
  {
    if a != [] {
      assert (a + ([c] + b))[1..] == a[1..] + ([c] + b);
      IndexOfFirst(a[1..], c, b);
    }
  }

  lemma {:induction false} CutAtFirst(a: string, c: char, b: string)
    requires c !in a
    ensures CutAt(a + ([c] + b), c) == Some((a, b))
  {
    var s := a + ([c] + b);
    IndexOfFirst(a, c, b);
    assert s[..|a|] == a;
    assert s[|a| + 1..] == b;
  }

  /** The two separators of the query, each a single character followed by a
      field name. */
  lemma {:induction false} Separators(x: string)
    ensures "?subject=" + x == ['?'] + ("subject=" + x)
    ensures "&body=" + x == ['&'] + ("body=" + x)
  {
    assert "?subject=" == ['?'] + "subject=";
    assert "&body=" == ['&'] + "body=";
  }

  /** Whatever `SplitLink` accepts is put back together by the link's own
      shape: the three parts are the whole link, in this order, and the
      recipient part holds no `?`. */
  lemma {:induction false} SplitLinkParts(link: string)
    requires SplitLink(link).Some?
    ensures var parts := SplitLink(link).value;
      link == "mailto:" + (parts.0 + ("?subject=" + (parts.1 + ("&body=" + parts.2)))) &&
      '?' !in parts.0 && '&' !in parts.1
  {
    var rest := StripPrefix("mailto:", link).value;
    var cut1 := CutAt(rest, '?').value;
    var fields := StripPrefix("subject=", cut1.1).value;
    var cut2 := CutAt(fields, '&').value;
    var b := StripPrefix("body=", cut2.1).value;
    assert SplitLink(link).value == (cut1.0, cut2.0, b);
    Separators(b);
    Separators(fields);
  }

  /** A link built from a recipient without `?` splits back into that
      recipient and the two encoded fields, in that order. */
  lemma {:induction false} SplitLinkOfLink(recipient: string, subject: string, body: string)
    requires '?' !in recipient
    ensures SplitLink(Link(recipient, subject, body)) ==
      Some((recipient, Quote(subject), Quote(body)))
  {
    var es, eb := Quote(subject), Quote(body);
    var tail := "body=" + eb;
    var fields := es + ("&body=" + eb);
    var query := "subject=" + fields;
    var rest := recipient + ("?subject=" + fields);
    Separators(eb);
    Separators(fields);
    assert Link(recipient, subject, body) == "mailto:" + rest;
    StripPrefixOf("mailto:", rest);
    CutAtFirst(recipient, '?', query);
    StripPrefixOf("subject=", fields);
    assert '&' !in es;
    CutAtFirst(es, '&', tail);
    StripPrefixOf("body=", eb);
  }

  /** `ParseLink` gets back exactly the recipient, subject and body the link
      was built from, whatever characters subject and body hold, if and only
      if the recipient holds no `?`: the recipient is not encoded, and a `?`
      in it (legal in the local part of an address) ends it early. */
  lemma {:induction false} ParseLinkOfLink(recipient: string, subject: string, body: string)
    ensures ParseLink(Link(recipient, subject, body)) == Some(Message(recipient, subject, body))
      <==> '?' !in recipient
  {
    if '?' !in recipient {
      SplitLinkOfLink(recipient, subject, body);
      UnquoteQuote(subject);
      UnquoteQuote(body);
    } else if SplitLink(Link(recipient, subject, body)).Some? {
      SplitLinkParts(Link(recipient, subject, body));
    }
  }
}
