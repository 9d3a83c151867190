/**
 * whois2/__init__.py: validating a domain name against the rules of its
 * zone, running the parsers over a whois answer, and `check`, which does
 * both around a fetch of the answer.
 */
module Whois {
  import opened Wrappers
  import PyStr
  import Idna
  import Registry
  import Validators
  import Zones
  import Records
  import Parsers

  /** Index of the last '.' of `s`. */
  function LastDot(s: string): (i: nat)
    requires '.' in s
    ensures i < |s| && s[i] == '.'
    ensures forall j :: i < j < |s| ==> s[j] != '.'
  {
    if s[|s| - 1] == '.' then |s| - 1
    else
      var k :| 0 <= k < |s| && s[k] == '.';
      assert s[..|s| - 1][k] == '.';
      LastDot(s[..|s| - 1])
  }

  /** `domain.rsplit('.', 1)[1]`: the text after the last '.'. */
  function SuffixAfterLastDot(domain: string): (r: string)
    requires '.' in domain
    ensures '.' !in r
    ensures PyStr.EndsWith(domain, "." + r)
  {
    var i := LastDot(domain);
    var r := domain[i + 1..];
    assert domain[i..] == "." + r;
    assert forall j :: 0 <= j < |r| ==> r[j] == domain[i + 1 + j];
    r
  }

  /** The messages of the rules in `rules` that refuse `name` in zone `tld`, in rule order. */
  function Collected(rules: seq<Validators.Validator>, name: string, tld: string, codec: Idna.Codec): (r: seq<Validators.Message>)
    ensures |r| <= |rules|
  {
    if rules == [] then []
    else
      var init := Collected(rules[..|rules| - 1], name, tld, codec);
      match Validators.Apply(rules[|rules| - 1], name, tld, codec)
      case None => init
      case Some(m) => init + [m]
  }

  /** Every collected message is some rule's answer. */
  lemma {:induction false} CollectedSound(rules: seq<Validators.Validator>, name: string, tld: string, codec: Idna.Codec, m: Validators.Message)
    requires m in Collected(rules, name, tld, codec)
    ensures exists i :: 0 <= i < |rules| && Validators.Apply(rules[i], name, tld, codec) == Some(m)
    decreases |rules|
  {
    var init := rules[..|rules| - 1];
    if m in Collected(init, name, tld, codec) {
      CollectedSound(init, name, tld, codec, m);
      var i :| 0 <= i < |init| && Validators.Apply(init[i], name, tld, codec) == Some(m);
      assert rules[i] == init[i];
    }
  }

  /** Every rule's message is collected. */
  lemma {:induction false} CollectedComplete(rules: seq<Validators.Validator>, name: string, tld: string, codec: Idna.Codec, i: nat)
    requires i < |rules| && Validators.Apply(rules[i], name, tld, codec).Some?
    ensures Validators.Apply(rules[i], name, tld, codec).value in Collected(rules, name, tld, codec)
    decreases |rules|
  {
    if i < |rules| - 1 {
      assert rules[..|rules| - 1][i] == rules[i];
      CollectedComplete(rules[..|rules| - 1], name, tld, codec, i);
    }
  }

  /**
   * `get_validation_errors(domain)` against the validator table `table`: no
   * dot, or no supported zone, is one error; otherwise the messages of the
   * zone's rules.
   */
  function ValidationErrors(table: Registry.Table<Validators.Validator>, domain: string, zones: seq<string>, codec: Idna.Codec): seq<Validators.Message> {
    if '.' !in domain then [Validators.InvalidDomainName]
    else
      var (name, tld) := Zones.ExtractTld(domain, zones);
      if tld.None? then [Validators.NoRulesFor(SuffixAfterLastDot(domain))]
      else Collected(Registry.Lookup(table, tld.value), name, tld.value, codec)
  }

  /** The zone whose rules `get_validation_errors` looks up, if it gets that far. */
  function RulesZone(domain: string, zones: seq<string>): Option<string> {
    if '.' !in domain then None else Zones.ExtractTld(domain, zones).1
  }

  /** The validator table after `get_validation_errors(domain)` has read it. */
  function ValidatorTableAfter(table: Registry.Table<Validators.Validator>, domain: string, zones: seq<string>): Registry.Table<Validators.Validator> {
    if RulesZone(domain, zones).Some? then Registry.Touched(table, RulesZone(domain, zones).value)
    else table
  }

  /**
   * The keys `get_validation_errors` inserts hold empty lists, so a later
   * call, for any domain, finds the same errors.
   */
  lemma {:induction false} ValidationAfterReadUnchanged(table: Registry.Table<Validators.Validator>, domain: string, zones: seq<string>, codec: Idna.Codec, later: string)
    ensures ValidationErrors(ValidatorTableAfter(table, domain, zones), later, zones, codec) == ValidationErrors(table, later, zones, codec)
  {
    var after := ValidatorTableAfter(table, domain, zones);
    var tld := Zones.ExtractTld(later, zones).1;
    if '.' in later && tld.Some? {
      assert Registry.Lookup(after, tld.value) == Registry.Lookup(table, tld.value);
    }
  }

  /** `get_validation_errors(domain)`, reading the rules from `registrar`. */
  method GetValidationErrors(domain: string, zones: seq<string>, codec: Idna.Codec, registrar: Registry.Registrar<Validators.Validator>)
    returns (errors: seq<Validators.Message>)
    modifies registrar
    ensures errors == ValidationErrors(old(registrar.registry), domain, zones, codec)
    ensures registrar.registry == ValidatorTableAfter(old(registrar.registry), domain, zones)
  {
    if '.' !in domain {
      return [Validators.InvalidDomainName];
    }
    var (name, tld) := Zones.ExtractTld(domain, zones);
    if tld.None? {
      var suffix := SuffixAfterLastDot(domain);
      return [Validators.NoRulesFor(suffix)];
    }
    var rules := registrar.Get(tld.value);
    errors := CollectErrors(rules, name, tld.value, codec);
  }

  /** The loop of `get_validation_errors`: each rule's message, if any, in rule order. */
  method CollectErrors(rules: seq<Validators.Validator>, name: string, tld: string, codec: Idna.Codec)
    returns (errors: seq<Validators.Message>)
    ensures errors == Collected(rules, name, tld, codec)
  {
    errors := [];
    for i := 0 to |rules|
      invariant errors == Collected(rules[..i], name, tld, codec)
    {
      CollectedSnoc(rules, i, name, tld, codec);
      var error := Validators.Apply(rules[i], name, tld, codec);
      if error.Some? {
        errors := errors + [error.value];
      }
    }
    assert rules[..|rules|] == rules;
  }

  lemma {:induction false} CollectedSnoc(rules: seq<Validators.Validator>, i: nat, name: string, tld: string, codec: Idna.Codec)
    requires i < |rules|
    ensures Collected(rules[..i + 1], name, tld, codec) ==
      match Validators.Apply(rules[i], name, tld, codec)
      case None => Collected(rules[..i], name, tld, codec)
      case Some(m) => Collected(rules[..i], name, tld, codec) + [m]
  {
    assert rules[..i + 1][..i] == rules[..i];
  }

  /** A domain without a supported zone gets one message, naming the text after its last dot. */
  lemma {:induction false} ErrorsOfUnsupportedZone(table: Registry.Table<Validators.Validator>, domain: string, zones: seq<string>, codec: Idna.Codec)
    requires '.' in domain && forall z :: z in zones ==> !Zones.IsZoneOf(domain, z)
    ensures exists suffix ::
      && ValidationErrors(table, domain, zones, codec) == [Validators.NoRulesFor(suffix)]
      && '.' !in suffix && PyStr.EndsWith(domain, "." + suffix)
  {
    var suffix := SuffixAfterLastDot(domain);
    assert ValidationErrors(table, domain, zones, codec) == [Validators.NoRulesFor(suffix)];
  }

  /**
   * With the shipped rules, a domain that passes validation is a local part
   * and a supported zone, and the local part is one label of a-z, 0-9 and
   * '-' (up to the trailing-newline allowance of `$`) without a hyphen at
   * either end.
   */
  lemma {:induction false} AcceptedDomainShape(domain: string, zones: seq<string>, codec: Idna.Codec)
    requires "" !in zones
    requires ValidationErrors(Validators.ValidatorTable(), domain, zones, codec) == []
    ensures var (name, tld) := Zones.ExtractTld(domain, zones);
      && tld.Some? && tld.value in zones && name + "." + tld.value == domain
      && '.' !in name
      && Validators.MatchesClassPlus(name, Validators.IsDomainSymbol)
      && !Validators.StartsOrEndsWithHyphen(name)
  {
    var (name, tld) := Zones.ExtractTld(domain, zones);
    Zones.ExtractTldSplitsAtLongestZone(domain, zones);
    var rules := Validators.ValidatorsFor(tld.value);
    Validators.ValidatorsForZone(tld.value);
    assert rules[0] == Validators.BaseRule;
    if Validators.BaseValidation(name, tld.value).Some? {
      CollectedComplete(rules, name, tld.value, codec, 0);
      assert false;
    }
  }

  /**
   * The validation cases of the test suite, against `SUPPORTED_TLD` and the
   * shipped rules: "linux.ru" passes (its name needs no IDNA encoding);
   * "linux" has no dot; "linux.nonexistent" has no rules; "www.linux.ru"
   * names a third-level domain.
   */
  lemma {:induction false} ValidationExamples(codec: Idna.Codec)
    requires !codec.isIdna("linux")
    ensures ValidationErrors(Validators.ValidatorTable(), "linux.ru", Zones.SupportedTld, codec) == []
    ensures ValidationErrors(Validators.ValidatorTable(), "linux", Zones.SupportedTld, codec) == [Validators.InvalidDomainName]
    ensures ValidationErrors(Validators.ValidatorTable(), "linux.nonexistent", Zones.SupportedTld, codec) == [Validators.NoRulesFor("nonexistent")]
    ensures Validators.PickSecondLevel in ValidationErrors(Validators.ValidatorTable(), "www.linux.ru", Zones.SupportedTld, codec)
  {
    Zones.ExtractTldExamples();
    Zones.ExtractTldWwwExample();
    Validators.ValidatorsForRu();
    LinuxRuAccepted(Validators.ValidatorTable(), Zones.SupportedTld, codec);
    LinuxHasNoDot();
    NoDot(Validators.ValidatorTable(), "linux", Zones.SupportedTld, codec);
    NonexistentSuffix(Validators.ValidatorTable(), Zones.SupportedTld, codec);
    WwwLinuxRuRejected(Validators.ValidatorTable(), Zones.SupportedTld, codec);
  }

  lemma {:induction false} LinuxRuAccepted(table: Registry.Table<Validators.Validator>, zones: seq<string>, codec: Idna.Codec)
    requires !codec.isIdna("linux")
    requires Zones.ExtractTld("linux.ru", zones) == ("linux", Some("ru"))
    requires Registry.Lookup(table, "ru") == [Validators.BaseRule, Validators.IdnaForbiddenRule, Validators.TwoLettersRule]
    ensures ValidationErrors(table, "linux.ru", zones, codec) == []
  {
    var rules := [Validators.BaseRule, Validators.IdnaForbiddenRule, Validators.TwoLettersRule];
    var r1, r2 := [Validators.BaseRule], [Validators.BaseRule, Validators.IdnaForbiddenRule];
    LinuxPassesRuRules(codec);
    assert r1[..0] == [];
    assert Collected(r1, "linux", "ru", codec) == [];
    assert r2[..1] == r1;
    assert Collected(r2, "linux", "ru", codec) == [];
    assert rules[..2] == r2;
    assert Collected(rules, "linux", "ru", codec) == [];
    assert '.' in "linux.ru" by { assert "linux.ru"[5] == '.'; }
  }

  lemma {:induction false} LinuxPassesRuRules(codec: Idna.Codec)
    requires !codec.isIdna("linux")
    ensures Validators.Apply(Validators.BaseRule, "linux", "ru", codec).None?
    ensures Validators.Apply(Validators.IdnaForbiddenRule, "linux", "ru", codec).None?
    ensures Validators.Apply(Validators.TwoLettersRule, "linux", "ru", codec).None?
  {
    assert Validators.IsLdhLabel("linux") by {
      assert forall i :: 0 <= i < 5 ==> Validators.IsDomainSymbol("linux"[i]);
    }
  }

  /** A domain without a dot gets exactly the invalid-name message, whatever the table and zones. */
  lemma {:induction false} NoDot(table: Registry.Table<Validators.Validator>, domain: string, zones: seq<string>, codec: Idna.Codec)
    requires '.' !in domain
    ensures ValidationErrors(table, domain, zones, codec) == [Validators.InvalidDomainName]
  {
  }

  /** "linux" has no dot. */
  lemma {:induction false} LinuxHasNoDot()
    ensures '.' !in "linux"
  {
    assert forall i :: 0 <= i < 5 ==> "linux"[i] != '.';
  }

  lemma {:induction false} NonexistentSuffix(table: Registry.Table<Validators.Validator>, zones: seq<string>, codec: Idna.Codec)
    requires Zones.ExtractTld("linux.nonexistent", zones) == ("linux.nonexistent", None)
    ensures ValidationErrors(table, "linux.nonexistent", zones, codec) == [Validators.NoRulesFor("nonexistent")]
  {
    NonexistentLastDot();
  }

  lemma {:induction false} NonexistentLastDot()
    ensures '.' in "linux.nonexistent"
    ensures SuffixAfterLastDot("linux.nonexistent") == "nonexistent"
  {
    var d := "linux.nonexistent";
    assert d[5] == '.';
    assert forall j :: 5 < j < |d| ==> d[j] != '.';
    assert LastDot(d) == 5;
    assert d[6..] == "nonexistent";
  }

  lemma {:induction false} WwwLinuxRuRejected(table: Registry.Table<Validators.Validator>, zones: seq<string>, codec: Idna.Codec)
    requires Zones.ExtractTld("www.linux.ru", zones) == ("www.linux", Some("ru"))
    requires Registry.Lookup(table, "ru") == [Validators.BaseRule, Validators.IdnaForbiddenRule, Validators.TwoLettersRule]
    ensures Validators.PickSecondLevel in ValidationErrors(table, "www.linux.ru", zones, codec)
  {
    WwwLinuxHasDots(codec);
    CollectedComplete(Registry.Lookup(table, "ru"), "www.linux", "ru", codec, 0);
  }

  lemma {:induction false} WwwLinuxHasDots(codec: Idna.Codec)
    ensures '.' in "www.linux.ru"
    ensures Validators.Apply(Validators.BaseRule, "www.linux", "ru", codec) == Some(Validators.PickSecondLevel)
  {
    assert "www.linux.ru"[3] == '.' && "www.linux"[3] == '.';
  }

  lemma {:induction false} DotSurvives(name: string, zone: string, domain: string, dot: nat)
    requires name + "." + zone == domain && dot < |name| && name[dot] == '.'
    ensures '.' in domain
  {
    assert domain[dot] == name[dot];
  }

  /** A name that still holds a dot after its zone is cut off fails `base_validation`. */
  lemma {:induction false} ThirdLevelRejected(table: Registry.Table<Validators.Validator>, domain: string, zones: seq<string>, codec: Idna.Codec, name: string, tld: string)
    requires '.' in name
    requires Zones.ExtractTld(domain, zones) == (name, Some(tld))
    requires |Registry.Lookup(table, tld)| > 0 && Registry.Lookup(table, tld)[0] == Validators.BaseRule
    ensures Validators.PickSecondLevel in ValidationErrors(table, domain, zones, codec)
  {
    var dot :| 0 <= dot < |name| && name[dot] == '.';
    var z := Zones.MatchedZone(domain, zones).value;
    DotSurvives(name, z, domain, dot);
    CollectedComplete(Registry.Lookup(table, tld), name, tld, codec, 0);
  }


  /**
   * The parsers `parse_whois_data` runs: `tld_parser.get(tld)` for the
   * domain's zone; with no zone the key is `None`, under which nothing is
   * registered, so only the wildcard parsers run.
   */
  function ParsersRun(table: Registry.Table<Parsers.Parser>, domain: string, zones: seq<string>): seq<Parsers.Parser> {
    match Zones.ExtractTld(domain, zones).1
    case Some(tld) => Registry.Lookup(table, tld)
    case None => Registry.Stored(table, Registry.Wildcard)
  }

  /** Every matcher in `parsers` for attribute `k` is a multi-value one. */
  predicate AllMulti(parsers: seq<Parsers.Parser>, k: string) {
    forall i :: 0 <= i < |parsers| && parsers[i].Matcher? && parsers[i].m.attributeName == k ==> parsers[i].m.multiValue
  }

  /**
   * Parsers that run one after another without an error: no matcher writes a
   * reserved attribute, and a multi-value matcher follows only multi-value
   * matchers of its attribute (a single value in its place has no `append`).
   */
  predicate Compatible(parsers: seq<Parsers.Parser>) {
    && (forall i :: 0 <= i < |parsers| && parsers[i].Matcher? ==> !Records.Reserved(parsers[i].m.attributeName))
    && (forall j :: 0 <= j < |parsers| && parsers[j].Matcher? && parsers[j].m.multiValue ==>
          AllMulti(parsers[..j], parsers[j].m.attributeName))
  }

  lemma {:induction false} CompatiblePrefix(parsers: seq<Parsers.Parser>, n: nat)
    requires Compatible(parsers) && n <= |parsers|
    ensures Compatible(parsers[..n])
  {
    var p := parsers[..n];
    forall j | 0 <= j < |p| && p[j].Matcher? && p[j].m.multiValue ensures AllMulti(p[..j], p[j].m.attributeName) {
      assert p[..j] == parsers[..j];
    }
  }

  lemma {:induction false} AllMultiPrefix(parsers: seq<Parsers.Parser>, n: nat, k: string)
    requires AllMulti(parsers, k) && n <= |parsers|
    ensures AllMulti(parsers[..n], k)
  {
    forall i | 0 <= i < n ensures parsers[..n][i] == parsers[i] {
    }
  }

  /** The attributes the matchers among `parsers` leave on a fresh result object. */
  function AttrsAfter(parsers: seq<Parsers.Parser>, data: string): (r: map<string, Records.Attr>)
    requires Compatible(parsers)
    ensures forall k :: k in r && AllMulti(parsers, k) ==> r[k].ListAttr?
    decreases |parsers|
  {
    if parsers == [] then map[]
    else
      var n := |parsers| - 1;
      var init := parsers[..n];
      CompatiblePrefix(parsers, n);
      var prev := AttrsAfter(init, data);
      forall k | k in prev && AllMulti(parsers, k) ensures prev[k].ListAttr? {
        AllMultiPrefix(parsers, n, k);
      }
      match parsers[n]
      case NotFoundParser => prev
      case Matcher(m) =>
        NextFits(parsers, n, data);
        m.Effect(prev, data)
  }

  /** A matcher of a compatible list finds the attributes left by the parsers before it as it needs them. */
  lemma {:induction false} NextFits(parsers: seq<Parsers.Parser>, j: nat, data: string)
    requires Compatible(parsers) && j < |parsers| && parsers[j].Matcher?
    ensures Compatible(parsers[..j])
    ensures parsers[j].m.Fits(AttrsAfter(parsers[..j], data))
    decreases |parsers|, 0
  {
    CompatiblePrefix(parsers, j);
  }

  predicate HasNotFound(parsers: seq<Parsers.Parser>) {
    exists i :: 0 <= i < |parsers| && parsers[i].NotFoundParser?
  }

  lemma {:induction false} HasNotFoundSnoc(parsers: seq<Parsers.Parser>, i: nat)
    requires i < |parsers|
    ensures HasNotFound(parsers[..i + 1]) <==> HasNotFound(parsers[..i]) || parsers[i].NotFoundParser?
  {
    if HasNotFound(parsers[..i + 1]) && !parsers[i].NotFoundParser? {
      var j :| 0 <= j < i + 1 && parsers[..i + 1][j].NotFoundParser?;
      assert parsers[..i][j] == parsers[j];
    }
    if HasNotFound(parsers[..i]) {
      var j :| 0 <= j < i && parsers[..i][j].NotFoundParser?;
      assert parsers[..i + 1][j] == parsers[j];
    }
    if parsers[i].NotFoundParser? {
      assert parsers[..i + 1][i] == parsers[i];
    }
  }

  /** `registered` after the parsers ran and `getattr(whois, 'registered', True)`. */
  function RegisteredAfter(parsers: seq<Parsers.Parser>, domain: string, data: string): bool {
    if HasNotFound(parsers) then Parsers.IsRegistered(domain, data) else true
  }

  /** The parser table after `parse_whois_data(domain, ...)` has read it. */
  function ParserTableAfter(table: Registry.Table<Parsers.Parser>, domain: string, zones: seq<string>): Registry.Table<Parsers.Parser> {
    if Zones.ExtractTld(domain, zones).1.Some? then Registry.Touched(table, Zones.ExtractTld(domain, zones).1.value)
    else table
  }

  /**
   * The keys `parse_whois_data` inserts hold empty lists, so a later call,
   * for any domain, runs the same parsers.
   */
  lemma {:induction false} ParsersAfterReadUnchanged(table: Registry.Table<Parsers.Parser>, domain: string, zones: seq<string>, later: string)
    ensures ParsersRun(ParserTableAfter(table, domain, zones), later, zones) == ParsersRun(table, later, zones)
  {
    var after := ParserTableAfter(table, domain, zones);
    assert Registry.Stored(after, Registry.Wildcard) == Registry.Stored(table, Registry.Wildcard);
    var tld := Zones.ExtractTld(later, zones).1;
    if tld.Some? {
      assert Registry.Stored(after, tld.value) == Registry.Stored(table, tld.value);
    }
  }

  /** `parse_whois_data(domain, whois_data)`, reading the parsers from `registrar`. */
  method ParseWhoisData(domain: string, whoisData: string, zones: seq<string>, registrar: Registry.Registrar<Parsers.Parser>)
    returns (whois: Records.WhoisDomain)
    requires Compatible(ParsersRun(registrar.registry, domain, zones))
    modifies registrar
    ensures fresh(whois)
    ensures whois.domain == domain && whois.whoisData == whoisData
    ensures whois.registered == Some(RegisteredAfter(ParsersRun(old(registrar.registry), domain, zones), domain, whoisData))
    ensures whois.attrs == AttrsAfter(ParsersRun(old(registrar.registry), domain, zones), whoisData)
    ensures registrar.registry == ParserTableAfter(old(registrar.registry), domain, zones)
  {
    var (name, tld) := Zones.ExtractTld(domain, zones);
    whois := new Records.WhoisDomain(domain, whoisData);
    var parsers: seq<Parsers.Parser>;
    if tld.Some? {
      parsers := registrar.Get(tld.value);
    } else {
      parsers := Registry.Stored(registrar.registry, Registry.Wildcard);
    }
    RunParsers(parsers, whois, name, tld);
    if whois.registered.None? {
      whois.registered := Some(true);
    }
  }

  /** The loop of `parse_whois_data`: each parser in turn on the same result object. */
  method RunParsers(parsers: seq<Parsers.Parser>, whois: Records.WhoisDomain, name: string, tld: Option<string>)
    requires Compatible(parsers)
    requires whois.registered == None && whois.attrs == map[]
    modifies whois`registered, whois`attrs
    ensures whois.registered == if HasNotFound(parsers) then Some(Parsers.IsRegistered(whois.domain, whois.whoisData)) else None
    ensures whois.attrs == AttrsAfter(parsers, whois.whoisData)
  {
    for i := 0 to |parsers|
      invariant whois.registered == if HasNotFound(parsers[..i]) then Some(Parsers.IsRegistered(whois.domain, whois.whoisData)) else None
      invariant Compatible(parsers[..i])
      invariant whois.attrs == AttrsAfter(parsers[..i], whois.whoisData)
    {
      AttrsAfterSnoc(parsers, i, whois.whoisData);
      Parsers.Run(parsers[i], whois, name, tld);
      HasNotFoundSnoc(parsers, i);
    }
    assert parsers[..|parsers|] == parsers;
  }

  /** One more parser: a matcher adds its effect to what the parsers before it left. */
  lemma {:induction false} AttrsAfterSnoc(parsers: seq<Parsers.Parser>, i: nat, data: string)
    requires Compatible(parsers) && i < |parsers|
    ensures Compatible(parsers[..i]) && Compatible(parsers[..i + 1])
    ensures parsers[i].Matcher? ==> parsers[i].m.Fits(AttrsAfter(parsers[..i], data))
    ensures AttrsAfter(parsers[..i + 1], data) ==
      match parsers[i]
      case NotFoundParser => AttrsAfter(parsers[..i], data)
      case Matcher(m) => m.Effect(AttrsAfter(parsers[..i], data), data)
  {
    assert parsers[..i + 1][..i] == parsers[..i];
    CompatiblePrefix(parsers, i);
    CompatiblePrefix(parsers, i + 1);
    if parsers[i].Matcher? {
      NextFits(parsers[..i + 1], i, data);
    }
  }

  /**
   * With the shipped parser table, every domain is judged by `not_found`
   * alone (for a catalogue without the empty zone or the wildcard key as a
   * zone).
   */
  lemma {:induction false} ShippedParsers(domain: string, zones: seq<string>)
    requires "" !in zones && Registry.Wildcard !in zones
    ensures ParsersRun(Parsers.ParserTable(), domain, zones) == [Parsers.NotFoundParser]
  {
    Zones.ExtractTldSplitsAtLongestZone(domain, zones);
    match Zones.ExtractTld(domain, zones).1
    case Some(tld) =>
      Parsers.ParsersForZone(tld);
    case None =>
      Parsers.ParsersForWildcard();
  }

  /** With `not_found` alone, no attribute is added and `registered` is its verdict. */
  lemma {:induction false} NotFoundAlone(domain: string, data: string)
    ensures Compatible([Parsers.NotFoundParser])
    ensures AttrsAfter([Parsers.NotFoundParser], data) == map[]
    ensures RegisteredAfter([Parsers.NotFoundParser], domain, data) == Parsers.IsRegistered(domain, data)
  {
    assert [Parsers.NotFoundParser][..0] == [];
    assert [Parsers.NotFoundParser][0].NotFoundParser?;
  }

  /** The whois service `check` consults: `get_whois`, as canned answers. */
  class WhoisSource {
    /** The answer for each name, or `None` when the `whois` tool fails (`RuntimeError`). */
    const responses: string -> Option<string>
    /** The names asked for so far. */
    ghost var queried: seq<string>

    constructor (responses: string -> Option<string>)
      ensures this.responses == responses && queried == []
    {
      this.responses := responses;
      queried := [];
    }

    method Fetch(domain: string) returns (r: Option<string>)
      modifies this
      ensures r == responses(domain)
      ensures queried == old(queried) + [domain]
    {
      r := responses(domain);
      queried := queried + [domain];
    }
  }

  /**
   * What `check` returns: `WhoisDomainInvalid`, a parsed `WhoisDomain`, the
   * error `get_whois` raises, or the `UnicodeError` `normalize_domain_name`
   * raises.
   */
  datatype CheckResult =
    | Invalid(domain: string, validationErrors: seq<Validators.Message>)
    | Checked(whois: Records.WhoisDomain)
    | WhoisFailed(domain: string)
    | NotEncodable(domain: string)

  /**
   * `check(domain)`: normalise the name; a name the codec cannot encode is
   * an error; an invalid one is reported without asking the whois service;
   * a valid one is looked up and parsed.  Each registry is left as its
   * reads leave it: the looked-up keys are added with empty lists.
   */
  method Check(domain: string, zones: seq<string>, codec: Idna.Codec,
               validators: Registry.Registrar<Validators.Validator>, parsers: Registry.Registrar<Parsers.Parser>,
               source: WhoisSource)
    returns (r: CheckResult)
    requires codec.normalize(domain).Some? ==> Compatible(ParsersRun(parsers.registry, codec.normalize(domain).value, zones))
    modifies validators, parsers, source
    ensures codec.normalize(domain).None? ==>
      && r == NotEncodable(domain)
      && validators.registry == old(validators.registry)
      && parsers.registry == old(parsers.registry)
      && source.queried == old(source.queried)
    ensures codec.normalize(domain).Some? ==>
      var d := codec.normalize(domain).value;
      var errors := ValidationErrors(old(validators.registry), d, zones, codec);
      && validators.registry == ValidatorTableAfter(old(validators.registry), d, zones)
      && (errors != [] ==> r == Invalid(d, errors) && source.queried == old(source.queried))
      && (errors != [] ==> parsers.registry == old(parsers.registry))
      && (errors == [] ==> source.queried == old(source.queried) + [d])
      && (errors == [] && source.responses(d).None? ==> r == WhoisFailed(d) && parsers.registry == old(parsers.registry))
      && (errors == [] && source.responses(d).Some? ==>
            && r.Checked? && fresh(r.whois)
            && r.whois.domain == d && r.whois.whoisData == source.responses(d).value
            && r.whois.registered == Some(RegisteredAfter(ParsersRun(old(parsers.registry), d, zones), d, source.responses(d).value))
            && r.whois.attrs == AttrsAfter(ParsersRun(old(parsers.registry), d, zones), source.responses(d).value)
            && parsers.registry == ParserTableAfter(old(parsers.registry), d, zones))
  {
    var normalized := codec.normalize(domain);
    if normalized.None? {
      return NotEncodable(domain);
    }
    var d := normalized.value;
    var errors := GetValidationErrors(d, zones, codec, validators);
    if errors != [] {
      return Invalid(d, errors);
    }
    var data := source.Fetch(d);
    if data.None? {
      return WhoisFailed(d);
    }
    var whois := ParseWhoisData(d, data.value, zones, parsers);
    r := Checked(whois);
  }
}
