/**
 Python's `text.strip('"')`: every leading and every trailing double-quote
 character is removed, not just one surrounding pair.
 */
module Quotes {

  const Quote: char := '"'

  /** `lstrip('"')` */
  function StripLeading(s: string): string {
    if |s| > 0 && s[0] == Quote then StripLeading(s[1..]) else s
  }

  /** `rstrip('"')` */
  function StripTrailing(s: string): string {
    if |s| > 0 && s[|s| - 1] == Quote then StripTrailing(s[..|s| - 1]) else s
  }

  function StripQuotes(s: string): string {
    StripTrailing(StripLeading(s))
  }

  /** `lstrip('"')` keeps the longest suffix that does not start with a quote. */
  lemma {:induction false} StripLeadingSpec(s: string)
    ensures var r := StripLeading(s);
      && |r| <= |s| && r == s[|s| - |r|..]
      && (forall i :: 0 <= i < |s| - |r| ==> s[i] == Quote)
      && (r == [] || r[0] != Quote)
  {
    if |s| > 0 && s[0] == Quote {
      StripLeadingSpec(s[1..]);
    }
  }

  /** `rstrip('"')` keeps the longest prefix that does not end with a quote. */
  lemma {:induction false} StripTrailingSpec(s: string)
    ensures var r := StripTrailing(s);
      && |r| <= |s| && r == s[..|r|]
      && (forall i :: |r| <= i < |s| ==> s[i] == Quote)
      && (r == [] || r[|r| - 1] != Quote)
  {
    if |s| > 0 && s[|s| - 1] == Quote {
      StripTrailingSpec(s[..|s| - 1]);
    }
  }

  /**
   The stripped text is the slice s[i..j] left over once the run of quotes
   before i and the run of quotes from j on are cut off, and it neither starts
   nor ends with a quote.
   */
  lemma StripQuotesIsTrim(s: string)
    ensures var r, i := StripQuotes(s), |s| - |StripLeading(s)|;
      && 0 <= i && i + |r| <= |s|
      && r == s[i..i + |r|]
      && (forall k :: 0 <= k < i ==> s[k] == Quote)
      && (forall k :: i + |r| <= k < |s| ==> s[k] == Quote)
      && (r == [] || (r[0] != Quote && r[|r| - 1] != Quote))
  {
    var l := StripLeading(s);
    var r := StripTrailing(l);
    StripLeadingSpec(s);
    StripTrailingSpec(l);
    var i := |s| - |l|;
    assert r == s[i..i + |r|];
    forall k | i + |r| <= k < |s| ensures s[k] == Quote {
      assert s[k] == l[k - i];
    }
  }

  /** Text that neither starts nor ends with a quote is left as it is. */
  lemma StripQuotesUnchanged(s: string)
    requires s == [] || (s[0] != Quote && s[|s| - 1] != Quote)
    ensures StripQuotes(s) == s
  {
  }

  lemma StripQuotesIdempotent(s: string)
    ensures StripQuotes(StripQuotes(s)) == StripQuotes(s)
  {
    StripQuotesIsTrim(s);
    StripQuotesUnchanged(StripQuotes(s));
  }

  /** One layer of quotes around a path is removed. */
  lemma StripQuotesOneLayer()
    ensures StripQuotes("\"/\"") == "/"
  {
    assert "\"/\""[1..] == "/\"";
    assert StripLeading("/\"") == "/\"";
    assert "/\""[..1] == "/";
  }

  /** Unbalanced and repeated quotes are removed as well. */
  lemma StripQuotesSeveralLayers()
    ensures StripQuotes("\"\"/\"") == "/"
  {
    assert "\"\"/\""[1..] == "\"/\"";
    StripQuotesOneLayer();
  }

  /** Text made only of quotes strips to the empty text. */
  lemma StripQuotesOnlyQuotes()
    ensures StripQuotes("\"\"") == ""
  {
    assert "\"\""[1..] == "\"";
    assert "\""[1..] == "";
  }
}
