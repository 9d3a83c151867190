# whois2 in Dafny

A model of the dispatch, validation and parsing engine of whois2, a Python 2
library that checks whether a domain name is valid and registered:

- **Registrar** (`decorators.py`): a dictionary from key to an append-only list.
  A lookup returns the entries of the wildcard key `"__all__"`, then the key's
  own. The dictionary is a `defaultdict`, so reading a missing key inserts it.
  Modelled as the class `Registry.Registrar` over a `map<string, seq<T>>`,
  with the value-level functions `Registered`, `Lookup` and `Touched`.
- **Validators** (`validators.py`): the six per-zone rules, as pure functions
  of the local part and the zone. Their registrations at import time build
  `Validators.ValidatorTable()`.
- **Zone extraction** (`extract_tld` and `SUPPORTED_TLD` in `__init__.py`):
  the longest catalogued zone `z` such that the domain ends with `"." + z`.
  The source's `extract_tld(domain)` always reads the module constant
  `SUPPORTED_TLD` (whois2/__init__.py:72-83). The model takes the catalogue
  as a parameter so that small catalogues can be reasoned about as well. It
  is instantiated with `Zones.SupportedTld`, the source's list row by row.
  The test suite's two-argument call (tests/test_base.py:15) does not match
  that one-argument signature.
- **Validation** (`get_validation_errors`): two early errors, then the
  messages of the zone's rules in registration order. Modelled as a method
  with a loop, proved against the function `Whois.ValidationErrors`.
- **Parsing** (`parser_utils.py`, `parsers.py`, `parse_whois_data`):
  - `RegexpMatcher` copies one group of every matching line into an attribute
    of the result object, as a growing list or as a value that the last match
    overwrites.
  - `not_found` marks the domain unregistered when a stripped line is one of
    seven templates.
  - `parse_whois_data` runs the parsers registered for the zone and defaults
    `registered` to `True`.

  The result object is the class `Records.WhoisDomain`. Its `registered`
  field and its attribute map are updated in place.
- **`check`**: normalise, validate, fetch, parse. The whois service is the
  class `Whois.WhoisSource`, which holds canned answers and a ghost record of
  the names asked for. This lets the contract say that an invalid name is
  never looked up.

Python semantics the model keeps:

- Python's `$` also matches just before a final newline. So
  `^[a-z0-9\-]+$` accepts `"linux\n"` (`Validators.BaseValidationTrailingNewline`).
- `domain[-0:]` is the whole domain. An empty zone in a catalogue therefore
  yields the whole domain as the zone (`Zones.TailSlice`). `SUPPORTED_TLD` has
  no empty zone, and the lemmas that depend on this say so in their `requires`.
- `str.strip`, `lower`, `upper` and `splitlines` work on byte strings:
  - whitespace and case are ASCII;
  - line breaks are `\n`, `\r` and `\r\n`;
  - a final break opens no new line.
- `not_found` compares exactly. A `No match for "..."` line names the domain as
  given or fully upper-cased; any other spelling is not recognised
  (`Parsers.NoMatchNeedsExactSpelling`). Matching is not case-insensitive,
  and whitespace inside a line is not collapsed.

## Model

| member | source | states |
|---|---|---|
| Registry.Registrar.constructor | whois2/decorators.py:27-28 | a new registrar holds no key |
| Registry.Registrar.Register | whois2/decorators.py:30-35 | `reg(*keys)(obj)` returns `obj` unchanged; every key's list gains `obj` once per listing at its end; every other list is unchanged; the keys become the old keys plus the listed ones |
| Registry.RegisteredStored | whois2/decorators.py:30-35 | after a registration, each key's list is its old list followed by as many copies of `obj` as the key is listed |
| Registry.RegisteredElsewhere | whois2/decorators.py:32-33 | a key not listed keeps its list |
| Registry.RegisteredKeys | whois2/decorators.py:32-33 | a registration adds exactly the listed keys to the dictionary |
| Registry.RegisteredTwiceKeepsBoth | whois2/decorators.py:33 | registering the same object under the same key twice leaves two entries |
| Registry.Registrar.Get | whois2/decorators.py:37-38 | `get(key)` is the wildcard list followed by the key's list; it inserts the two keys if missing, with empty lists, and changes no stored list |
| Registry.Touched | whois2/decorators.py:37-38 | the dictionary after a `get` gains exactly the wildcard and the key, and every stored list reads as before |
| Registry.LookupUnregistered | whois2/decorators.py:37-38 | `get` of a key never registered yields exactly the wildcard list |
| Registry.LookupWildcard | whois2/decorators.py:37-38 | `get('__all__')` yields the wildcard list twice over |
| Registry.Registrar.GetKeys | whois2/decorators.py:40-44 | `get_keys()` is every key in the dictionary except the wildcard |
| Validators.BaseValidation | whois2/validators.py:13-21 | each message exactly when its condition holds and the earlier ones do not: a dot, then a character outside `[a-z0-9-]`, then a hyphen at either end; a host-name label always passes, and a passing name without a newline is one |
| Validators.BaseValidationTrailingNewline | whois2/validators.py:17-19 | `"linux\n"` passes the symbol check, though it is not a host-name label |
| Validators.IdnaForbidden | whois2/validators.py:25-29 | refuses a name exactly when the codec calls it IDNA, naming the zone |
| Validators.IdnaAllowed | whois2/validators.py:33-35 | never refuses |
| Validators.ThreeLettersDomain | whois2/validators.py:38-41 | refuses exactly the names shorter than 3 |
| Validators.TwoLettersDomain | whois2/validators.py:45-48 | refuses exactly the names shorter than 2 |
| Validators.RfValidator | whois2/validators.py:52-64 | the first failing check, in order, each exactly when its condition holds: decoded length under 2; `len(name + '.xn--p1ai') > 63`; a decoded character outside the Russian letters, digits and `-`; a hyphen at either end |
| Validators.RfValidatorExamples | tests/test_base.py:39-51 | for a name whose Punycode form fits the length check and which decodes to "пушкин-66", the rule passes; decoding to "а", "google", "-пушкин" or "пушкин-", or a Punycode form over 54 characters, fails with the message of the first failed check |
| Validators.TableFromAt | whois2/validators.py:13-52 | after the six registrations, over key lists without repeats, a key's list is `base_validation` if it is the wildcard, then each later rule whose list names the key, in registration order |
| Validators.ValidatorTableAt | whois2/validators.py:13-52 | the shipped registry's list under each key, rule by rule |
| Validators.KeyListsDistinct | whois2/validators.py:25-52 | no registration lists a zone twice |
| Validators.WildcardRules | whois2/validators.py:13-14 | the wildcard key holds `base_validation` alone |
| Validators.ValidatorsForZone | whois2/validators.py:13-52 | `tld_validator.get(tld)` is `base_validation` followed by the rules registered under `tld`, in registration order |
| Validators.ValidatorsForRu | whois2/validators.py:25-48 | .ru gets `base_validation`, `idna_forbidden`, `two_letters_domain` |
| Validators.ValidatorsForRf | whois2/validators.py:52-53 | .рф gets `base_validation`, then `rf_validator` |
| Validators.ValidatorsForUnnamedZone | whois2/validators.py:13-14 | a zone no registration names gets `base_validation` alone |
| Zones.SortByLength | whois2/__init__.py:83 | the sort is a permutation of the zones, longest first |
| Zones.FirstMatch | whois2/__init__.py:84-87 | the loop returns a listed zone of the domain, and finds none exactly when there is none |
| Zones.FirstMatchIsLongest | whois2/__init__.py:83-86 | on a longest-first list, the first zone found is a longest one |
| Zones.EqualLengthZonesAgree | whois2/__init__.py:85 | two zones of one domain of equal length are equal |
| Zones.FirstMatchAnyOrder | whois2/__init__.py:83-86 | how the sort orders equally long zones never changes the zone found |
| Zones.MatchedZone | whois2/__init__.py:83-87 | the zone found is catalogued, is a zone of the domain and is at least as long as every other; there is none exactly when no zone fits |
| Zones.ExtractTld | whois2/__init__.py:72-87 | no zone exactly when none fits, and then the whole domain comes back; otherwise the local part, `.` and the zone rebuild the domain |
| Zones.ExtractTldSplitsAtLongestZone | whois2/__init__.py:83-86 | with no empty zone catalogued, a found zone is catalogued, `name + "." + tld == domain`, and no longer catalogued zone fits |
| Zones.SplitAtZone | whois2/__init__.py:86 | the two slices rebuild the domain, and the second slice is the zone |
| Zones.ExtractTldUnique | whois2/__init__.py:83-86 | in a catalogue of zones 1 to 8 characters long, `name.zone` splits into `(name, zone)` when `zone` is catalogued and no other zone of the domain is as long or longer, up to 8 characters |
| Zones.SupportedTldShape | whois2/__init__.py:6-31 | every supported zone is 1 to 8 characters long |
| Zones.LinuxRuNotSupported | whois2/__init__.py:6-31 | "linux.ru" is not a supported zone |
| Zones.ExtractTldOrgRu | whois2/__init__.py:77-78 | "linux.org.ru" splits at "org.ru", not at "ru", in any catalogue of zones 1 to 8 characters long that holds "org.ru" |
| Zones.ExtractTldSmallCatalogue | whois2/__init__.py:77-78 | with only "ru" and "org.ru" catalogued, in either order, "linux.org.ru" splits at "org.ru" |
| Zones.ExtractTldExamples | tests/test_base.py:8-15 | the three cases of the test suite against `SUPPORTED_TLD` |
| Zones.ExtractTldWwwExample | tests/test_base.py:28-37 | "www.linux.ru" splits into "www.linux" and "ru" |
| Whois.SuffixAfterLastDot | whois2/__init__.py:50 | `rsplit('.', 1)[1]` holds no dot and ends the domain after a dot |
| Whois.CollectedSound | whois2/__init__.py:53-58 | every collected message is some rule's answer |
| Whois.CollectedComplete | whois2/__init__.py:53-58 | every rule's message is collected |
| Whois.CollectErrors | whois2/__init__.py:53-58 | the loop collects exactly the rules' messages, in rule order |
| Whois.GetValidationErrors | whois2/__init__.py:44-58 | returns `ValidationErrors` of the registry as it was; the registry gains the wildcard and zone keys exactly when the rules are looked up |
| Whois.NoDot | whois2/__init__.py:46-47 | a name without a dot gets exactly the invalid-name message |
| Whois.ValidationAfterReadUnchanged | whois2/decorators.py:37-38 | the keys `get_validation_errors` inserts hold empty lists, so a later call finds the same errors for every domain |
| Whois.ErrorsOfUnsupportedZone | whois2/__init__.py:49-51 | a domain under no catalogued zone gets exactly one message, naming a dot-free suffix the domain ends with after a dot |
| Whois.AcceptedDomainShape | whois2/__init__.py:44-58 | a domain the shipped rules accept is a dot-free name, then `.`, then a catalogued zone; the name matches `^[a-z0-9\-]+$` and has no hyphen at either end |
| Whois.ThirdLevelRejected | whois2/validators.py:15-16 | a local part that still holds a dot draws "pick 2nd level domain" from any zone whose rules start with `base_validation` |
| Whois.LinuxRuAccepted | tests/test_base.py:28-37 | "linux.ru" gets no error when it splits at "ru" and .ru has the shipped three rules |
| Whois.NonexistentSuffix | tests/test_base.py:28-37 | "linux.nonexistent" gets the no-rules message for "nonexistent" |
| Whois.WwwLinuxRuRejected | tests/test_base.py:28-37 | "www.linux.ru" gets the "pick 2nd level domain" message when it splits at "ru" and .ru has the shipped rules |
| Whois.ValidationExamples | tests/test_base.py:28-37 | the four validation cases of the test suite against `SUPPORTED_TLD` and the shipped rules, for a codec that does not call "linux" IDNA |
| ParserUtils.CleanNameserver | whois2/parser_utils.py:13-20 | exactly one trailing dot is removed if there is one; the result is the lower-cased input cut to that length, with no upper-case letter |
| ParserUtils.CleanNameserverIgnoresCase | whois2/parser_utils.py:17-20 | cleaning gives the same result for a name and its upper- and lower-cased forms |
| ParserUtils.CleanNameserverIdempotent | whois2/parser_utils.py:17-18 | cleaning twice equals cleaning once exactly when the name does not end in ".." |
| ParserUtils.CleanNameserverExample | whois2/parser_utils.py:13-20 | "NS1.Example.RU." cleans to "ns1.example.ru" |
| ParserUtils.RegexpMatcher.Cleaned | whois2/parser_utils.py:62-68 | a `None` group stores nothing; otherwise the value, cleaned when a clean-up is given |
| ParserUtils.RegexpMatcher.CapturesSound | whois2/parser_utils.py:46-52 | every stored value comes from some matching line |
| ParserUtils.RegexpMatcher.CapturesComplete | whois2/parser_utils.py:46-52 | every matching line's value is stored |
| ParserUtils.RegexpMatcher.CapturesAppend | whois2/parser_utils.py:48-52 | the values of two texts' lines are those of each, in line order |
| ParserUtils.RegexpMatcher.Final | whois2/parser_utils.py:69-72 | multi-value: the prior list followed by the new values; single: the last new value, or the prior value when there is none |
| ParserUtils.RegexpMatcher.FinalConcat | whois2/parser_utils.py:69-72 | adding values in two batches is adding them at once |
| ParserUtils.RegexpMatcher.Effect | whois2/parser_utils.py:46-72 | a matcher adds only its own attribute; every other attribute is unchanged |
| ParserUtils.RegexpMatcher.PrepareWhois | whois2/parser_utils.py:54-60 | a missing attribute becomes `[]` or `None`; a present one is untouched |
| ParserUtils.RegexpMatcher.AddToWhois | whois2/parser_utils.py:62-72 | nothing changes for a `None` value or a `None` cleaned value; otherwise the value is appended or stored; nothing else changes |
| ParserUtils.RegexpMatcher.Call | whois2/parser_utils.py:46-52 | the attributes become `Effect` of the old ones: the list grows by the cleaned captures in line order, or the single value is the last capture |
| ParserUtils.NameserversAreClean | whois2/parser_utils.py:62-70 | with `clean_nameserver` as its clean-up, a matcher stores only lower-case names |
| PyStr.StripPadded | whois2/parsers.py:22 | `strip()` recovers a text without outer whitespace from any whitespace padding |
| PyStr.SplitLinesHaveNoBreaks | whois2/parsers.py:21 | no line from `splitlines` holds a line break |
| PyStr.SplitLinesLosesOnlyBreaks | whois2/parsers.py:21 | the lines from `splitlines`, joined, are the text without its line breaks |
| Parsers.NotFound | whois2/parsers.py:6-25 | `registered` is set to `True` exactly when no stripped line is a template; nothing else changes |
| Parsers.TemplateLineMeansUnregistered | whois2/parsers.py:20-24 | a template line anywhere marks the domain unregistered |
| Parsers.EmptyAnswerIsRegistered | whois2/parsers.py:20-25 | an empty answer leaves the domain registered |
| Parsers.VerdictIgnoresLineOrder | whois2/parsers.py:21-24 | answers with the same lines, in any order or number, get the same verdict |
| Parsers.IsRegisteredFirstLine | whois2/parsers.py:21-24 | the verdict on `first + "\n" + rest` is: `first` is no template line, and `rest` gets the verdict registered |
| Parsers.PaddedTemplateLine | whois2/parsers.py:22 | a template padded with whitespace still counts |
| Parsers.TemplatesUnpadded | whois2/parsers.py:11-19 | every template is non-empty and has no outer whitespace |
| Parsers.NoMatchNeedsExactSpelling | whois2/parsers.py:14-15 | a `No match for "x".` line is a template exactly when `x` is the domain or the domain fully upper-cased |
| Parsers.NoMatchMixedCaseExample | whois2/parsers.py:14-15 | "Example.com" in a no-match line is not recognised for example.com |
| Parsers.ParsersForZone | whois2/parsers.py:6 | `tld_parser.get(tld)` is `[not_found]` for every zone |
| Parsers.ParsersForWildcard | whois2/parsers.py:6 | the wildcard key holds `not_found` alone |
| Parsers.Run | whois2/__init__.py:65 | calling a parser: `not_found` sets only `registered`; a matcher changes only the attributes, as `Effect` says |
| Whois.AttrsAfter | whois2/__init__.py:64-65 | after compatible parsers, every attribute written only by multi-value matchers is a list |
| Whois.AttrsAfterSnoc | whois2/__init__.py:64-65 | one more parser leaves the attributes unchanged for `not_found`, or applies the matcher's `Effect` |
| Whois.RunParsers | whois2/__init__.py:64-65 | after the loop, `registered` is the `not_found` verdict if `not_found` ran, else absent; the attributes are `AttrsAfter` |
| Whois.ParseWhoisData | whois2/__init__.py:61-69 | a new result with `domain` and `whois_data` as given; `registered` is always set, and is `True` unless `not_found` ran; the attributes are the parsers' effect; only the looked-up keys are added to the registry |
| Whois.ParsersAfterReadUnchanged | whois2/decorators.py:37-38 | the keys `parse_whois_data` inserts hold empty lists, so a later call runs the same parsers for every domain |
| Whois.ShippedParsers | whois2/__init__.py:64 | with the shipped parser table, every domain runs `not_found` alone |
| Whois.NotFoundAlone | whois2/__init__.py:64-68 | with `not_found` alone, no attribute is added and `registered` is its verdict |
| Whois.WhoisSource.Fetch | whois2/utils.py:36-57 | the answer for the name, or `None` for a failure; the name is recorded as asked |
| Records.WhoisDomain.constructor | whois2/utils.py:21-23 | `domain` and `whois_data` as given, no `registered`, no attributes |
| Whois.Check | whois2/__init__.py:33-41 | a name the codec cannot encode: an encoding failure, nothing read, nothing fetched. Otherwise the validator registry is left as `get_validation_errors` leaves it. On validation errors: the invalid result with exactly those errors, no fetch, parser registry unchanged. Otherwise exactly one fetch of the normalised name. A failed fetch leaves the parser registry unchanged; an answer gives the result `parse_whois_data` gives, and the parser registry as it leaves it |

## Left out

- `get_whois` (whois2/utils.py:36-57): this runs the `whois` command-line tool. It is a table of canned answers, `WhoisSource`. A `RuntimeError` is the answer `None`, which `check` turns into `WhoisFailed` instead of raising.
- `check` passes `cache=` and `cache_timeout=` (whois2/__init__.py:39), but `get_whois` accepts neither (whois2/utils.py:36). In Python this call fails with a `TypeError`. The model calls the fetch with the name alone.
- `normalize_domain_name`, `is_idna`, `unicodify` (whois2/utils.py:60-83): these rest on Python's IDNA codec (RFC 3490, with Punycode per RFC 3492). Here they are the function fields of `Idna.Codec`, so the IDNA examples of the test suite are stated on what the codec returns.
- `Idna.Codec`, `Whois.Check`: `normalize` answers `None` where the codec raises `UnicodeError`, for example on an empty label as in `"linux..ru"` or on a label over 63 characters. `check` then returns `NotEncodable` instead of raising.
- `Idna.Codec`, `Validators.IdnaForbidden`, `Validators.RfValidator`, `Whois.GetValidationErrors`: `isIdna` and `unicodify` are total. Python's `is_idna` and `unicodify` raise `UnicodeError` on an `xn--` label that is not valid Punycode (whois2/utils.py:76,83). That exception would leave `get_validation_errors` through `idna_forbidden` (whois2/validators.py:28) or `rf_validator` (whois2/validators.py:55). The model does not capture this failure.
- The gettext translation `_` (whois2/utils.py:6-8): messages are distinct constants of `Validators.Message`. Their wording is not modelled.
- `clean_datetime` (whois2/parser_utils.py:23-24): a wrapper over dateutil's parser. No shipped parser uses it.
- The regular-expression engine: `RegexpMatcher.regexp` is an abstract function from a line to "no match" or the named group's value. The two character-class patterns of the validators are written out as predicates.
- `ParserUtils.RegexpMatcher.Call`: `match.group(attribute_name)` raises `IndexError` when the pattern has no group of that name (whois2/parser_utils.py:51). The abstract `regexp` assumes the group exists, so this failure is not modelled.
- `register` (whois2/parser_utils.py:4-10): it calls `registry(parser)`, which only builds a decorator and registers nothing. It has no effect to model.
- `whois2/data.py` and `setup.py`: YAML loading and packaging.
- `Whois.ParseWhoisData`: for a domain with no zone, Python calls `tld_parser.get(None)`. The `defaultdict` then inserts the keys `None` and `'__all__'`. The model reads the wildcard list and leaves the registry unchanged, because a `None` key has no place among string keys.
- `Registry.Registrar.GetKeys`: Python returns a list in the dictionary's arbitrary order. The model returns the set of keys.
- `Parsers.Run`, `ParserUtils.RegexpMatcher.Call`: a multi-value matcher that finds a single value in its attribute raises `AttributeError` on `append` in Python. A matcher that writes an attribute the result object already owns (`domain`, `whois_data`, `invalid`, `registered`, dunder names) clobbers it. The contracts exclude both cases (`Fits`, `Compatible`) rather than model the exception or the clobbering. The exclusion is broader than the case that raises. Python fails only when a line actually matches and `append` runs (whois2/parser_utils.py:69-70). A multi-value matcher over a single value with no matching line runs without error, but `Fits` still excludes it. The shipped parser table has no matcher.
- `Records.WhoisDomain`: `WhoisDomainBase.invalid` is a class constant (`False` here, `True` for the invalid result). It is the constructor tag of `Whois.CheckResult` rather than a field.
- `get` returning a new list: values are immutable sequences in the model, so a caller changing the returned list cannot reach the stored one. No separate lemma states this.
