/**
 * whois2/parsers.py: the `tld_parser` registrar and its one parser,
 * `not_found`, which decides from the whois text whether a domain is
 * registered.
 */
module Parsers {
  import opened Wrappers
  import PyStr
  import Registry
  import Records
  import ParserUtils

  /** The line `No match for "<spelling>".` */
  function NoMatchLine(spelling: string): string {
    "No match for \"" + spelling + "\"."
  }

  /** The lines (stripped) by which whois servers say a domain is not registered. */
  function Templates(domain: string): set<string> {
    {
      "NOT FOUND",
      "Not found: " + domain,
      NoMatchLine(domain),
      NoMatchLine(PyStr.Upper(domain)),
      "No entries found for the selected source(s).",
      "No match",
      "No match."
    }
  }

  predicate NotFoundLine(domain: string, line: string) {
    PyStr.Strip(line) in Templates(domain)
  }

  /** No line, stripped, is one of `templates`. */
  predicate NoneStripsTo(lines: seq<string>, templates: set<string>) {
    forall i :: 0 <= i < |lines| ==> PyStr.Strip(lines[i]) !in templates
  }

  /** The verdict of `not_found`: no line of the text, stripped, is a template. */
  predicate IsRegistered(domain: string, data: string) {
    NoneStripsTo(PyStr.SplitLines(data), Templates(domain))
  }

  /** `not_found(whois, name, tld)`: scan the lines until a template line, then set `registered`. */
  method NotFound(whois: Records.WhoisDomain, name: string, tld: Option<string>)
    modifies whois`registered
    ensures whois.registered == Some(IsRegistered(whois.domain, whois.whoisData))
  {
    var templates := Templates(whois.domain);
    var lines := PyStr.SplitLines(whois.whoisData);
    var registered := true;
    var i := 0;
    while i < |lines|
      invariant 0 <= i <= |lines|
      invariant registered
      invariant forall j :: 0 <= j < i ==> PyStr.Strip(lines[j]) !in templates
    {
      if PyStr.Strip(lines[i]) in templates {
        registered := false;
        break;
      }
      i := i + 1;
    }
    whois.registered := Some(registered);
  }

  /** A template line anywhere in the text marks the domain unregistered; whitespace around it is ignored. */
  lemma {:induction false} TemplateLineMeansUnregistered(domain: string, data: string, i: nat)
    requires i < |PyStr.SplitLines(data)| && NotFoundLine(domain, PyStr.SplitLines(data)[i])
    ensures !IsRegistered(domain, data)
  {
  }

  /** An empty answer holds no template line: the domain counts as registered. */
  lemma {:induction false} EmptyAnswerIsRegistered(domain: string)
    ensures IsRegistered(domain, "")
  {
    assert PyStr.SplitLines("") == [];
  }

  /**
   * The verdict depends only on which lines occur: two answers with the same
   * lines, in any order and any number of times, get the same verdict.
   */
  lemma {:induction false} VerdictIgnoresLineOrder(a: seq<string>, b: seq<string>, templates: set<string>)
    requires forall line :: line in a <==> line in b
    ensures NoneStripsTo(a, templates) <==> NoneStripsTo(b, templates)
  {
    NoneStripsToSubset(a, b, templates);
    NoneStripsToSubset(b, a, templates);
  }

  lemma {:induction false} NoneStripsToSubset(a: seq<string>, b: seq<string>, templates: set<string>)
    requires forall line :: line in b ==> line in a
    ensures NoneStripsTo(a, templates) ==> NoneStripsTo(b, templates)
  {
    if NoneStripsTo(a, templates) {
      forall j | 0 <= j < |b| ensures PyStr.Strip(b[j]) !in templates {
        assert b[j] in a;
        var i :| 0 <= i < |a| && a[i] == b[j];
      }
    }
  }

  /**
   * The verdict reads the text line by line: a first line without a line
   * break, followed by "\n", is judged on its own and the rest as a text of
   * its own.
   */
  lemma {:induction false} IsRegisteredFirstLine(domain: string, first: string, rest: string)
    requires PyStr.NoLineBreak(first)
    ensures IsRegistered(domain, first + "\n" + rest) <==> !NotFoundLine(domain, first) && IsRegistered(domain, rest)
  {
    SplitLinesAfterFirst(first, rest);
    NoneStripsToCons(first, PyStr.SplitLines(rest), Templates(domain));
  }

  lemma {:induction false} NoneStripsToCons(line: string, lines: seq<string>, templates: set<string>)
    ensures NoneStripsTo([line] + lines, templates) <==> PyStr.Strip(line) !in templates && NoneStripsTo(lines, templates)
  {
    var all := [line] + lines;
    assert all[0] == line;
    assert forall j :: 0 <= j < |lines| ==> all[j + 1] == lines[j];
    if PyStr.Strip(line) !in templates && NoneStripsTo(lines, templates) {
      forall j | 0 <= j < |all| ensures PyStr.Strip(all[j]) !in templates {
        if j > 0 {
          assert all[j] == lines[j - 1];
        }
      }
    }
  }

  lemma {:induction false} SplitLinesAfterFirst(first: string, rest: string)
    requires PyStr.NoLineBreak(first)
    ensures PyStr.SplitLines(first + "\n" + rest) == [first] + PyStr.SplitLines(rest)
  {
    var s := first + "\n" + rest;
    assert s[|first|] == '\n';
    forall j | 0 <= j < |first| ensures !PyStr.IsLineBreak(s[j]) {
      assert s[j] == first[j] && first[j] in first;
    }
    LineEndAt(s, |first|);
    assert PyStr.NextLineStart(s, |first|) == |first| + 1;
    assert s[..|first|] == first;
    assert s[|first| + 1..] == rest;
  }

  lemma {:induction false} LineEndAt(s: string, k: nat)
    requires k < |s| && PyStr.IsLineBreak(s[k])
    requires forall j :: 0 <= j < k ==> !PyStr.IsLineBreak(s[j])
    ensures PyStr.LineEnd(s) == k
  {
  }

  /**
   * A template line keeps its effect whatever whitespace pads it, for a
   * domain that does not end in whitespace (a normalised name never does).
   */
  lemma {:induction false} PaddedTemplateLine(domain: string, left: string, t: string, right: string)
    requires domain != [] && !PyStr.IsSpace(domain[|domain| - 1])
    requires t in Templates(domain) && PyStr.AllSpace(left) && PyStr.AllSpace(right)
    ensures NotFoundLine(domain, left + t + right)
  {
    TemplatesUnpadded(domain, t);
    PyStr.StripPadded(left, t, right);
  }

  /** Every template is non-empty, starts with 'N' and ends in a non-space. */
  lemma {:induction false} TemplatesUnpadded(domain: string, t: string)
    requires domain != [] && !PyStr.IsSpace(domain[|domain| - 1])
    requires t in Templates(domain)
    ensures t != [] && !PyStr.IsSpace(t[0]) && !PyStr.IsSpace(t[|t| - 1])
  {
    if t == "Not found: " + domain {
      assert t[0] == 'N' && t[|t| - 1] == domain[|domain| - 1];
    } else if t == NoMatchLine(domain) || t == NoMatchLine(PyStr.Upper(domain)) {
      assert t[0] == 'N' && t[|t| - 1] == '.';
    } else {
      assert t in {"NOT FOUND", "No entries found for the selected source(s).", "No match", "No match."};
    }
  }

  /**
   * A `No match for "x".` line is a template exactly when `x` is the domain
   * as given or wholly upper-cased: a domain spelled in mixed case is not
   * recognised.
   */
  lemma {:induction false} NoMatchNeedsExactSpelling(domain: string, x: string)
    ensures NoMatchLine(x) in Templates(domain) <==> x == domain || x == PyStr.Upper(domain)
  {
    var line := NoMatchLine(x);
    assert line[..14] == "No match for \"";
    assert line[2] == ' ' && line[3] == 'm' && line[1] == 'o';
    assert |line| == 16 + |x|;
    assert line != "NOT FOUND" by { assert "NOT FOUND"[1] == 'O'; }
    assert line != "Not found: " + domain by { assert ("Not found: " + domain)[2] == 't'; }
    assert line != "No entries found for the selected source(s)." by {
      assert "No entries found for the selected source(s)."[3] == 'e';
    }
    if line in Templates(domain) {
      assert line == NoMatchLine(domain) || line == NoMatchLine(PyStr.Upper(domain));
      if line == NoMatchLine(domain) {
        SpellingOfNoMatchLine(x, domain);
      } else {
        SpellingOfNoMatchLine(x, PyStr.Upper(domain));
      }
    }
  }

  lemma {:induction false} SpellingOfNoMatchLine(x: string, y: string)
    requires NoMatchLine(x) == NoMatchLine(y)
    ensures x == y
  {
    var line := NoMatchLine(x);
    assert x == line[14..|line| - 2];
    assert y == NoMatchLine(y)[14..|line| - 2];
  }

  /** "Example.com" in a "No match" line leaves example.com registered. */
  lemma {:induction false} NoMatchMixedCaseExample()
    ensures NoMatchLine("Example.com") !in Templates("example.com")
  {
    NoMatchNeedsExactSpelling("example.com", "Example.com");
    assert "Example.com"[0] != "example.com"[0];
    assert "Example.com"[1] != PyStr.Upper("example.com")[1];
  }

  /** The parsers `tld_parser` may hold: `not_found`, or a `RegexpMatcher`. */
  datatype Parser =
    | NotFoundParser
    | Matcher(m: ParserUtils.RegexpMatcher)

  /** `tld_parser.registry` once the module is imported: `not_found` under the wildcard. */
  function ParserTable(): Registry.Table<Parser> {
    Registry.Registered(map[], [Registry.Wildcard], NotFoundParser)
  }

  /** `tld_parser.get(tld)` gives `not_found` alone for every zone. */
  lemma {:induction false} ParsersForZone(tld: string)
    requires tld != Registry.Wildcard
    ensures Registry.Lookup(ParserTable(), tld) == [NotFoundParser]
  {
    Registry.RegisteredStored(map[], [Registry.Wildcard], NotFoundParser, Registry.Wildcard);
    Registry.RegisteredStored(map[], [Registry.Wildcard], NotFoundParser, tld);
    assert multiset([Registry.Wildcard])[Registry.Wildcard] == 1;
    assert Registry.Copies(NotFoundParser, 1) == [NotFoundParser];
  }

  /** The wildcard entry of `tld_parser.registry` is `not_found` alone. */
  lemma {:induction false} ParsersForWildcard()
    ensures Registry.Stored(ParserTable(), Registry.Wildcard) == [NotFoundParser]
  {
    Registry.RegisteredStored(map[], [Registry.Wildcard], NotFoundParser, Registry.Wildcard);
    assert multiset([Registry.Wildcard])[Registry.Wildcard] == 1;
    assert Registry.Copies(NotFoundParser, 1) == [NotFoundParser];
  }

  /** Calling a parser: `parser(whois, name, tld)`. */
  method Run(p: Parser, whois: Records.WhoisDomain, name: string, tld: Option<string>)
    requires p.Matcher? ==> p.m.Fits(whois.attrs)
    modifies whois`registered, whois`attrs
    ensures p.NotFoundParser? ==> whois.registered == Some(IsRegistered(whois.domain, whois.whoisData))
    ensures p.NotFoundParser? ==> whois.attrs == old(whois.attrs)
    ensures p.Matcher? ==> whois.registered == old(whois.registered)
    ensures p.Matcher? ==> whois.attrs == p.m.Effect(old(whois.attrs), whois.whoisData)
  {
    match p
    case NotFoundParser => NotFound(whois, name, tld);
    case Matcher(m) => m.Call(whois, name, tld);
  }
}
