/**
 * The result object of whois2/utils.py that the parsers fill in.  Python
 * objects carry arbitrary attributes; the two the core names (`domain` and
 * `whois_data`) are fields, `registered` is a field that may be absent, and
 * the attributes the regular-expression matchers add live in `attrs`.
 */
module Records {
  import opened Wrappers
  import PyStr

  /**
   * A matcher-added attribute: a list for a multi-value matcher, else a
   * single value that is `None` until a line matches.
   */
  datatype Attr = ListAttr(items: seq<string>) | ScalarAttr(value: Option<string>)

  /**
   * Attribute names a `WhoisDomain` has before any parser runs, or that the
   * core itself sets: a matcher writing one of these would find it present
   * (`hasattr`) or clobber the parsers' verdict.
   */
  predicate Reserved(name: string) {
    name in {"domain", "whois_data", "invalid", "registered"} || PyStr.StartsWith(name, "__")
  }

  /** `WhoisDomain`: a domain name, its raw whois text, and what the parsers found. */
  class WhoisDomain {
    const domain: string
    const whoisData: string
    /** `None` while no parser has set `registered`. */
    var registered: Option<bool>
    var attrs: map<string, Attr>

    constructor (domain: string, whoisData: string)
      ensures this.domain == domain && this.whoisData == whoisData
      ensures registered == None && attrs == map[]
    {
      this.domain := domain;
      this.whoisData := whoisData;
      registered := None;
      attrs := map[];
    }
  }
}
