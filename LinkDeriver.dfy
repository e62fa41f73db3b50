/**
 * Building a download link from an OSTI identifier: a fixed purl base
 * followed by the identifier's digits, with no separator in between.
 */
module LinkDeriver {
  import opened PatternMatcher

  const PURL_BASE: string := "http://www.osti.gov/scitech/servlets/purl/"

  datatype Option<T> = None | Some(value: T)

  /** The identifier a link was derived from: what follows the purl base, if the link starts with it. */
  function IdentifierOf(link: string): (r: Option<string>)
    ensures r.Some? <==> |link| >= |PURL_BASE| && link[..|PURL_BASE|] == PURL_BASE
  {
    if |link| >= |PURL_BASE| && link[..|PURL_BASE|] == PURL_BASE then Some(link[|PURL_BASE|..]) else None
  }

  /** The download link of an identifier: dropping the purl base from it gives the identifier back. */
  function DeriveLink(identifier: string): (link: string)
    ensures IdentifierOf(link) == Some(identifier)
  {
    assert (PURL_BASE + identifier)[..|PURL_BASE|] == PURL_BASE;
    PURL_BASE + identifier
  }

  /** Distinct identifiers give distinct links. */
  lemma DeriveLinkInjective(a: string, b: string)
    ensures DeriveLink(a) == DeriveLink(b) ==> a == b
  {
    if DeriveLink(a) == DeriveLink(b) {
      assert Some(a) == IdentifierOf(DeriveLink(a)) == IdentifierOf(DeriveLink(b)) == Some(b);
    }
  }

  /** Every link that starts with the purl base is the derivation of what follows the base. */
  lemma IdentifierOfDerives(link: string)
    requires IdentifierOf(link).Some?
    ensures DeriveLink(IdentifierOf(link).value) == link
  {
    assert link == link[..|PURL_BASE|] + link[|PURL_BASE|..];
  }

  /**
   * A derived link has the shape the link scan captures, and a document
   * holding it as element text (`>link<`) yields exactly that link: the
   * identifier-links and links modes agree on such a document.
   */
  lemma DerivedLinkIsScanned(identifier: string)
    requires |identifier| > 0 && AllDigits(identifier)
    ensures WellFormed(LINK_PATTERN, DeriveLink(identifier))
    ensures Scan(LINK_PATTERN, ">" + DeriveLink(identifier) + "<") == [DeriveLink(identifier)]
  {
    var lead := ">" + PURL_BASE;
    assert PURL_BASE == LINK_URL_PATTERN;
    assert lead == Lead(LINK_PATTERN);
    FitsItself(lead);
    ScanOfOneMatch(LINK_PATTERN, lead, identifier);
    Bracketed(PURL_BASE, identifier);
  }

  /** Regrouping `>base` followed by `identifier<` as `>`, the link, `<`. */
  lemma Bracketed(base: string, identifier: string)
    ensures (">" + base) + identifier + "<" == ">" + (base + identifier) + "<"
    ensures ((">" + base) + identifier)[1..] == base + identifier
  {
  }

  /**
   * The dots of the link pattern are wildcards: with both replaced by 'X' the
   * URL is still scanned as a link, although it does not start with the purl
   * base, so it is not the derived link of any identifier.
   */
  lemma LinkDotsAreWildcards(identifier: string)
    requires |identifier| > 0 && AllDigits(identifier)
    ensures var url := LINK_URL_PATTERN[10 := 'X'][15 := 'X'];
      && Scan(LINK_PATTERN, ">" + url + identifier + "<") == [url + identifier]
      && IdentifierOf(url + identifier) == None
  {
    var url := LINK_URL_PATTERN[10 := 'X'][15 := 'X'];
    var lead := ">" + url;
    WildcardLeadFits();
    ScanOfOneMatch(LINK_PATTERN, lead, identifier);
    assert (lead + identifier)[|LINK_PATTERN.before|..] == url + identifier;
    assert PURL_BASE[10] == '.';
    assert (url + identifier)[..|PURL_BASE|][10] == 'X';
  }

  lemma WildcardLeadFits()
    ensures FitsPattern(">" + LINK_URL_PATTERN[10 := 'X'][15 := 'X'], Lead(LINK_PATTERN))
  {
    var url := LINK_URL_PATTERN[10 := 'X'][15 := 'X'];
    var lead, pattern := ">" + url, Lead(LINK_PATTERN);
    assert LINK_URL_PATTERN[10] == '.' && LINK_URL_PATTERN[15] == '.';
    assert pattern == ">" + LINK_URL_PATTERN;
    forall k | 0 <= k < |lead|
      ensures pattern[k] == '.' || lead[k] == pattern[k]
    {
      if k > 0 {
        assert lead[k] == url[k - 1] && pattern[k] == LINK_URL_PATTERN[k - 1];
      }
    }
  }
}
