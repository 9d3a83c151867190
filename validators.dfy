/**
 * The per-zone validation rules of whois2/validators.py.  Each rule is a
 * pure function of the local part `name` (the domain without its zone) and
 * the zone `tld`, returning an error message or nothing.  The rules are
 * registered at import time in the `tld_validator` registrar.
 */
module Validators {
  import opened Wrappers
  import Idna
  import Registry

  /**
   * The validation messages; they are translated in the source, so they are
   * opaque distinct constants here.  The first two come from
   * `get_validation_errors` in whois2/__init__.py.
   */
  datatype Message =
    | InvalidDomainName
    | NoRulesFor(suffix: string)
    | PickSecondLevel
    | BadSymbols
    | BadHyphen
    | IdnaForbiddenIn(tld: string)
    | ShorterThan3In(tld: string)
    | ShorterThan2In(tld: string)
    | RfTooShort
    | RfTooLong
    | RfNotRussian

  /**
   * Whether `re.match('^[C]+$', s)` succeeds for the character class `inClass`:
   * one or more characters of the class up to the end of the text, where
   * Python's `$` also matches just before a final newline.
   */
  predicate MatchesClassPlus(s: string, inClass: char -> bool) {
    || (|s| > 0 && forall i :: 0 <= i < |s| ==> inClass(s[i]))
    || (|s| > 1 && s[|s| - 1] == '\n' && forall i :: 0 <= i < |s| - 1 ==> inClass(s[i]))
  }

  /** The class `[a-z0-9\-]`. */
  predicate IsDomainSymbol(c: char) {
    'a' <= c <= 'z' || '0' <= c <= '9' || c == '-'
  }

  /**
   * The class of the .рф rule: the 33 lower-case Russian letters (а to я,
   * which are contiguous code points, and ё), the digits and '-'.
   */
  predicate IsRfSymbol(c: char) {
    'а' <= c <= 'я' || c == 'ё' || '0' <= c <= '9' || c == '-'
  }

  predicate StartsOrEndsWithHyphen(s: string) {
    |s| > 0 && (s[0] == '-' || s[|s| - 1] == '-')
  }

  /** A host-name label: one or more of a-z, 0-9 and '-', not starting or ending with '-'. */
  predicate IsLdhLabel(name: string) {
    |name| > 0 && (forall i :: 0 <= i < |name| ==> IsDomainSymbol(name[i])) && !StartsOrEndsWithHyphen(name)
  }

  /** `base_validation` (every zone). */
  function BaseValidation(name: string, tld: string): (r: Option<Message>)
    ensures r == Some(PickSecondLevel) <==> '.' in name
    ensures r == Some(BadSymbols) <==> '.' !in name && !MatchesClassPlus(name, IsDomainSymbol)
    ensures r == Some(BadHyphen) <==> '.' !in name && MatchesClassPlus(name, IsDomainSymbol) && StartsOrEndsWithHyphen(name)
    ensures r.None? || r == Some(PickSecondLevel) || r == Some(BadSymbols) || r == Some(BadHyphen)
    ensures IsLdhLabel(name) ==> r.None?
    ensures r.None? && '\n' !in name ==> IsLdhLabel(name)
  {
    if '.' in name then Some(PickSecondLevel)
    else if !MatchesClassPlus(name, IsDomainSymbol) then Some(BadSymbols)
    else if StartsOrEndsWithHyphen(name) then Some(BadHyphen)
    else None
  }

  /** The `$` anchor lets one trailing newline through the symbol check. */
  lemma {:induction false} BaseValidationTrailingNewline()
    ensures BaseValidation("linux\n", "ru") == None
    ensures !IsLdhLabel("linux\n")
  {
    assert MatchesClassPlus("linux\n", IsDomainSymbol);
    assert !IsDomainSymbol("linux\n"[5]);
  }

  /** `idna_forbidden`: an internationalised name is refused in the zones that register it. */
  function IdnaForbidden(name: string, tld: string, codec: Idna.Codec): (r: Option<Message>)
    ensures r.Some? <==> codec.isIdna(name)
    ensures r.Some? ==> r.value == IdnaForbiddenIn(tld)
  {
    if codec.isIdna(name) then Some(IdnaForbiddenIn(tld)) else None
  }

  /** `idna_allowed`: registered for some zones, and never refuses a name. */
  function IdnaAllowed(name: string, tld: string): (r: Option<Message>)
    ensures r.None?
  {
    None
  }

  /** `three_letters_domain`: names shorter than three characters are refused. */
  function ThreeLettersDomain(name: string, tld: string): (r: Option<Message>)
    ensures r.Some? <==> |name| < 3
    ensures r.Some? ==> r.value == ShorterThan3In(tld)
  {
    if |name| < 3 then Some(ShorterThan3In(tld)) else None
  }

  /** `two_letters_domain`: names shorter than two characters are refused. */
  function TwoLettersDomain(name: string, tld: string): (r: Option<Message>)
    ensures r.Some? <==> |name| < 2
    ensures r.Some? ==> r.value == ShorterThan2In(tld)
  {
    if |name| < 2 then Some(ShorterThan2In(tld)) else None
  }

  /** The suffix `rf_validator` appends before measuring the ASCII form. */
  const RfSuffix: string := ".xn--p1ai"

  /**
   * `rf_validator` (zone xn--p1ai, that is .рф): the first failing check, in
   * order: the decoded name is shorter than 2; `name + '.xn--p1ai'` is longer
   * than 63; the decoded name has a character outside the Russian alphabet,
   * the digits and '-'; the decoded name starts or ends with '-'.
   */
  function RfValidator(name: string, tld: string, codec: Idna.Codec): (r: Option<Message>)
    ensures var u := codec.unicodify(name);
      && (r == Some(RfTooShort) <==> |u| < 2)
      && (r == Some(RfTooLong) <==> |u| >= 2 && |name| + 9 > 63)
      && (r == Some(RfNotRussian) <==> |u| >= 2 && |name| <= 54 && !MatchesClassPlus(u, IsRfSymbol))
      && (r == Some(BadHyphen) <==> |u| >= 2 && |name| <= 54 && MatchesClassPlus(u, IsRfSymbol) && StartsOrEndsWithHyphen(u))
      && (r.None? <==> |u| >= 2 && |name| <= 54 && MatchesClassPlus(u, IsRfSymbol) && !StartsOrEndsWithHyphen(u))
  {
    var u := codec.unicodify(name);
    if |u| < 2 then Some(RfTooShort)
    else if |name + RfSuffix| > 63 then Some(RfTooLong)
    else if !MatchesClassPlus(u, IsRfSymbol) then Some(RfNotRussian)
    else if StartsOrEndsWithHyphen(u) then Some(BadHyphen)
    else None
  }

  /** The rules, as the values the registrar holds. */
  datatype Validator =
    | BaseRule
    | IdnaForbiddenRule
    | IdnaAllowedRule
    | ThreeLettersRule
    | TwoLettersRule
    | RfRule

  /** Calling a registered rule: `validator(name, tld)`. */
  function Apply(v: Validator, name: string, tld: string, codec: Idna.Codec): Option<Message> {
    match v
    case BaseRule => BaseValidation(name, tld)
    case IdnaForbiddenRule => IdnaForbidden(name, tld, codec)
    case IdnaAllowedRule => IdnaAllowed(name, tld)
    case ThreeLettersRule => ThreeLettersDomain(name, tld)
    case TwoLettersRule => TwoLettersDomain(name, tld)
    case RfRule => RfValidator(name, tld, codec)
  }

  /** `RU_SUBDOMAINS` of whois2/utils.py. */
  const RuSubdomains: seq<string> := ["com.ru", "net.ru", "org.ru", "pp.ru", "spb.ru", "msk.ru"]

  /** The keys of `idna_forbidden` listed before `*RU_SUBDOMAINS`. */
  const IdnaForbiddenZones: seq<string> :=
    ["ru", "pro", "info", "biz", "travel", "aero", "mobi", "xxx",
     "me", "bz", "ag", "hn", "lc", "mn", "sc", "vc"]
  const IdnaForbiddenKeys: seq<string> := IdnaForbiddenZones + RuSubdomains
  const IdnaAllowedKeys: seq<string> := ["su", "com", "net", "org", "tel", "name", "tv", "cc"]
  const ThreeLettersKeys: seq<string> := ["info", "pro", "name", "travel", "xxx", "bz", "mn", "sc"]
  /** The keys of `two_letters_domain` listed before `*RU_SUBDOMAINS`. */
  const TwoLettersZones: seq<string> := ["ru", "su", "tel", "name", "aero", "bz", "mn", "sc", "vc"]
  const TwoLettersKeys: seq<string> := TwoLettersZones + RuSubdomains
  const RfKeys: seq<string> := ["xn--p1ai"]

  /**
   * `tld_validator.registry` after the six registrations in source order,
   * `base_validation` under the wildcard and each other rule under its key list.
   */
  function TableFrom(forbidden: seq<string>, allowed: seq<string>, three: seq<string>, two: seq<string>, rf: seq<string>): Registry.Table<Validator> {
    var t1 := Registry.Registered(map[], [Registry.Wildcard], BaseRule);
    var t2 := Registry.Registered(t1, forbidden, IdnaForbiddenRule);
    var t3 := Registry.Registered(t2, allowed, IdnaAllowedRule);
    var t4 := Registry.Registered(t3, three, ThreeLettersRule);
    var t5 := Registry.Registered(t4, two, TwoLettersRule);
    Registry.Registered(t5, rf, RfRule)
  }

  /** `tld_validator.registry` once the module is imported. */
  function ValidatorTable(): Registry.Table<Validator> {
    TableFrom(IdnaForbiddenKeys, IdnaAllowedKeys, ThreeLettersKeys, TwoLettersKeys, RfKeys)
  }

  /** `tld_validator.get(tld)` */
  function ValidatorsFor(tld: string): seq<Validator> {
    Registry.Lookup(ValidatorTable(), tld)
  }

  /** Each key list names a zone at most once. */
  predicate NoDuplicates(keys: seq<string>) {
    forall i, j :: 0 <= i < j < |keys| ==> keys[i] != keys[j]
  }

  lemma {:induction false} CountInDistinct(keys: seq<string>, key: string)
    requires NoDuplicates(keys)
    ensures multiset(keys)[key] == if key in keys then 1 else 0
    decreases |keys|
  {
    if keys != [] {
      assert keys == [keys[0]] + keys[1..];
      assert multiset(keys) == multiset{keys[0]} + multiset(keys[1..]);
      CountInDistinct(keys[1..], key);
      if key == keys[0] {
        assert key !in keys[1..];
      }
    }
  }

  function Count(keys: seq<string>, key: string): nat {
    if key in keys then 1 else 0
  }

  lemma {:induction false} KeyListsDistinct()
    ensures NoDuplicates(IdnaForbiddenKeys) && NoDuplicates(IdnaAllowedKeys) && NoDuplicates(ThreeLettersKeys)
    ensures NoDuplicates(TwoLettersKeys) && NoDuplicates(RfKeys)
  {
    ForbiddenKeysDistinct();
    TwoLettersKeysDistinct();
    assert NoDuplicates(IdnaAllowedKeys);
    assert NoDuplicates(ThreeLettersKeys);
  }

  /** Two duplicate-free lists with no key in common make a duplicate-free list. */
  lemma {:induction false} NoDuplicatesConcat(a: seq<string>, b: seq<string>)
    requires NoDuplicates(a) && NoDuplicates(b)
    requires forall i :: 0 <= i < |a| ==> a[i] !in b
    ensures NoDuplicates(a + b)
  {
    var c := a + b;
    forall i, j | 0 <= i < j < |c| ensures c[i] != c[j] {
      if j >= |a| && i < |a| {
        assert c[j] == b[j - |a|];
      } else if i >= |a| {
        assert c[i] == b[i - |a|] && c[j] == b[j - |a|];
      }
    }
  }

  /** No key of `RuSubdomains` (each holds a dot) is in `keys` (none does). */
  lemma {:induction false} RuSubdomainsApart(keys: seq<string>)
    requires forall i :: 0 <= i < |keys| ==> '.' !in keys[i]
    ensures forall i :: 0 <= i < |keys| ==> keys[i] !in RuSubdomains
  {
    forall i, j | 0 <= i < |keys| && 0 <= j < |RuSubdomains| ensures keys[i] != RuSubdomains[j] {
      assert '.' in RuSubdomains[j] by {
        assert RuSubdomains[j][|RuSubdomains[j]| - 3] == '.';
      }
    }
  }

  lemma {:induction false} ForbiddenKeysDistinct()
    ensures NoDuplicates(IdnaForbiddenKeys)
  {
    ForbiddenZonesDistinct();
    ForbiddenZonesUndotted();
    RuSubdomainsDistinct();
    RuSubdomainsApart(IdnaForbiddenZones);
    NoDuplicatesConcat(IdnaForbiddenZones, RuSubdomains);
  }

  lemma {:induction false} TwoLettersKeysDistinct()
    ensures NoDuplicates(TwoLettersKeys)
  {
    TwoLettersZonesFacts();
    RuSubdomainsDistinct();
    RuSubdomainsApart(TwoLettersZones);
    NoDuplicatesConcat(TwoLettersZones, RuSubdomains);
  }

  lemma {:induction false} ForbiddenZonesDistinct()
    ensures NoDuplicates(IdnaForbiddenZones)
  {
  }

  lemma {:induction false} ForbiddenZonesUndotted()
    ensures forall i :: 0 <= i < |IdnaForbiddenZones| ==> '.' !in IdnaForbiddenZones[i]
  {
  }

  lemma {:induction false} TwoLettersZonesFacts()
    ensures NoDuplicates(TwoLettersZones)
    ensures forall i :: 0 <= i < |TwoLettersZones| ==> '.' !in TwoLettersZones[i]
  {
  }

  lemma {:induction false} RuSubdomainsDistinct()
    ensures NoDuplicates(RuSubdomains)
  {
  }

  lemma {:induction false} WildcardNotAZone()
    ensures Registry.Wildcard !in IdnaForbiddenKeys && Registry.Wildcard !in IdnaAllowedKeys
    ensures Registry.Wildcard !in ThreeLettersKeys && Registry.Wildcard !in TwoLettersKeys
    ensures Registry.Wildcard !in RfKeys
  {
  }

  /** The list `registry[key]` holds: each rule once per registration under `key`. */
  function RulesFrom(forbidden: seq<string>, allowed: seq<string>, three: seq<string>, two: seq<string>, rf: seq<string>, key: string): seq<Validator> {
    Registry.Copies(BaseRule, if key == Registry.Wildcard then 1 else 0)
    + Registry.Copies(IdnaForbiddenRule, Count(forbidden, key))
    + Registry.Copies(IdnaAllowedRule, Count(allowed, key))
    + Registry.Copies(ThreeLettersRule, Count(three, key))
    + Registry.Copies(TwoLettersRule, Count(two, key))
    + Registry.Copies(RfRule, Count(rf, key))
  }

  /** The list `tld_validator.registry[key]` holds. */
  function StoredRules(key: string): seq<Validator> {
    RulesFrom(IdnaForbiddenKeys, IdnaAllowedKeys, ThreeLettersKeys, TwoLettersKeys, RfKeys, key)
  }

  lemma {:induction false} TableFromAt(forbidden: seq<string>, allowed: seq<string>, three: seq<string>, two: seq<string>, rf: seq<string>, key: string)
    requires NoDuplicates(forbidden) && NoDuplicates(allowed) && NoDuplicates(three)
    requires NoDuplicates(two) && NoDuplicates(rf)
    ensures Registry.Stored(TableFrom(forbidden, allowed, three, two, rf), key) == RulesFrom(forbidden, allowed, three, two, rf, key)
  {
    var t1 := Registry.Registered(map[], [Registry.Wildcard], BaseRule);
    var t2 := Registry.Registered(t1, forbidden, IdnaForbiddenRule);
    var t3 := Registry.Registered(t2, allowed, IdnaAllowedRule);
    var t4 := Registry.Registered(t3, three, ThreeLettersRule);
    var t5 := Registry.Registered(t4, two, TwoLettersRule);
    assert multiset([Registry.Wildcard])[key] == if key == Registry.Wildcard then 1 else 0;
    Registry.RegisteredStored(map[], [Registry.Wildcard], BaseRule, key);
    CountInDistinct(forbidden, key);
    Registry.RegisteredStored(t1, forbidden, IdnaForbiddenRule, key);
    CountInDistinct(allowed, key);
    Registry.RegisteredStored(t2, allowed, IdnaAllowedRule, key);
    CountInDistinct(three, key);
    Registry.RegisteredStored(t3, three, ThreeLettersRule, key);
    CountInDistinct(two, key);
    Registry.RegisteredStored(t4, two, TwoLettersRule, key);
    CountInDistinct(rf, key);
    Registry.RegisteredStored(t5, rf, RfRule, key);
  }

  lemma {:induction false} ValidatorTableAt(key: string)
    ensures Registry.Stored(ValidatorTable(), key) == StoredRules(key)
  {
    KeyListsDistinct();
    TableFromAt(IdnaForbiddenKeys, IdnaAllowedKeys, ThreeLettersKeys, TwoLettersKeys, RfKeys, key);
  }

  /**
   * What `tld_validator.get(tld)` returns, rule by rule in registration
   * order: `base_validation` (the wildcard entry), then the rules registered
   * under `tld` itself.
   */
  lemma {:induction false} ValidatorsForZone(tld: string)
    ensures ValidatorsFor(tld) == [BaseRule] + StoredRules(tld)
  {
    ValidatorTableAt(Registry.Wildcard);
    ValidatorTableAt(tld);
    WildcardRules();
  }

  /** Under the wildcard key there is `base_validation` alone. */
  lemma {:induction false} WildcardRules()
    ensures StoredRules(Registry.Wildcard) == [BaseRule]
  {
    WildcardNotAZone();
    RulesFromWildcard(IdnaForbiddenKeys, IdnaAllowedKeys, ThreeLettersKeys, TwoLettersKeys, RfKeys);
  }

  lemma {:induction false} RulesFromWildcard(forbidden: seq<string>, allowed: seq<string>, three: seq<string>, two: seq<string>, rf: seq<string>)
    requires Registry.Wildcard !in forbidden && Registry.Wildcard !in allowed && Registry.Wildcard !in three
    requires Registry.Wildcard !in two && Registry.Wildcard !in rf
    ensures RulesFrom(forbidden, allowed, three, two, rf, Registry.Wildcard) == [BaseRule]
  {
    assert Registry.Copies(BaseRule, 1) == [BaseRule];
  }

  /** The .ru rules: `base_validation`, `idna_forbidden`, `two_letters_domain`. */
  lemma {:induction false} ValidatorsForRu()
    ensures ValidatorsFor("ru") == [BaseRule, IdnaForbiddenRule, TwoLettersRule]
  {
    ValidatorsForZone("ru");
    RuKeyPlacement();
    assert Registry.Copies(IdnaForbiddenRule, 1) == [IdnaForbiddenRule];
    assert Registry.Copies(TwoLettersRule, 1) == [TwoLettersRule];
  }

  lemma {:induction false} RuKeyPlacement()
    ensures Count(IdnaForbiddenKeys, "ru") == 1 && Count(IdnaAllowedKeys, "ru") == 0
    ensures Count(ThreeLettersKeys, "ru") == 0 && Count(TwoLettersKeys, "ru") == 1
    ensures Count(RfKeys, "ru") == 0
  {
    assert IdnaForbiddenKeys[0] == "ru" && TwoLettersKeys[0] == "ru";
  }

  /** The .рф rules: `base_validation`, then `rf_validator`. */
  lemma {:induction false} ValidatorsForRf()
    ensures ValidatorsFor("xn--p1ai") == [BaseRule, RfRule]
  {
    ValidatorsForZone("xn--p1ai");
    RfKeyPlacement();
    assert Registry.Copies(RfRule, 1) == [RfRule];
  }

  lemma {:induction false} RfKeyPlacement()
    ensures Count(IdnaForbiddenKeys, "xn--p1ai") == 0 && Count(IdnaAllowedKeys, "xn--p1ai") == 0
    ensures Count(ThreeLettersKeys, "xn--p1ai") == 0 && Count(TwoLettersKeys, "xn--p1ai") == 0
    ensures Count(RfKeys, "xn--p1ai") == 1
  {
    assert RfKeys[0] == "xn--p1ai";
  }

  /** A zone no rule names gets `base_validation` alone. */
  lemma {:induction false} ValidatorsForUnnamedZone(tld: string)
    requires tld != Registry.Wildcard
    requires tld !in IdnaForbiddenKeys && tld !in IdnaAllowedKeys && tld !in ThreeLettersKeys
    requires tld !in TwoLettersKeys && tld !in RfKeys
    ensures ValidatorsFor(tld) == [BaseRule]
  {
    ValidatorsForZone(tld);
  }

  /**
   * The .рф cases of the test suite, stated on the decoded name the codec
   * yields: "пушкин-66" passes; "а", "google", "-пушкин" and "пушкин-" fail
   * with the message of the first check they miss; a name whose ASCII form is
   * longer than 54 characters (the 48-letter "пушкин-пушкин-...пушкин" among
   * them) fails the 63-character check.
   */
  lemma {:induction false} RfValidatorExamples(name: string, codec: Idna.Codec)
    ensures codec.unicodify(name) == "пушкин-66" && |name| <= 54 ==> RfValidator(name, "xn--p1ai", codec).None?
    ensures codec.unicodify(name) == "а" ==> RfValidator(name, "xn--p1ai", codec) == Some(RfTooShort)
    ensures codec.unicodify(name) == "google" && |name| <= 54 ==> RfValidator(name, "xn--p1ai", codec) == Some(RfNotRussian)
    ensures codec.unicodify(name) in {"-пушкин", "пушкин-"} && |name| <= 54 ==> RfValidator(name, "xn--p1ai", codec) == Some(BadHyphen)
    ensures |codec.unicodify(name)| >= 2 && |name| > 54 ==> RfValidator(name, "xn--p1ai", codec) == Some(RfTooLong)
  {
    var u := "пушкин-66";
    assert forall i :: 0 <= i < |u| ==> IsRfSymbol(u[i]);
    assert !IsRfSymbol("google"[0]) && "google"[5] != '\n';
    var h := "-пушкин";
    assert forall i :: 0 <= i < |h| ==> IsRfSymbol(h[i]);
    var t := "пушкин-";
    assert forall i :: 0 <= i < |t| ==> IsRfSymbol(t[i]);
  }
}
