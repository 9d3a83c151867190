/**
 * whois2/parser_utils.py: the name-server clean-up function and
 * `RegexpMatcher`, a parser that copies one named group of a regular
 * expression from every matching line of the whois text into an attribute
 * of the result object.
 */
module ParserUtils {
  import opened Wrappers
  import PyStr
  import Records

  /** `clean_nameserver`: drop one trailing '.', then lower-case. */
  function CleanNameserver(nserver: string): (r: string)
    ensures |r| == if PyStr.EndsWith(nserver, ".") then |nserver| - 1 else |nserver|
    ensures r == PyStr.Lower(nserver)[..|r|]
    ensures forall i :: 0 <= i < |r| ==> !('A' <= r[i] <= 'Z')
  {
    var trimmed := if PyStr.EndsWith(nserver, ".") then nserver[..|nserver| - 1] else nserver;
    PyStr.Lower(trimmed)
  }

  /** Cleaning is blind to ASCII case. */
  lemma {:induction false} CleanNameserverIgnoresCase(s: string)
    ensures CleanNameserver(PyStr.Upper(s)) == CleanNameserver(s)
    ensures CleanNameserver(PyStr.Lower(s)) == CleanNameserver(s)
  {
    var u, l := PyStr.Upper(s), PyStr.Lower(s);
    assert PyStr.EndsWith(u, ".") <==> PyStr.EndsWith(s, ".") by {
      if |s| > 0 {
        assert u[|u| - 1..] == [u[|u| - 1]] && s[|s| - 1..] == [s[|s| - 1]];
      }
    }
    assert PyStr.EndsWith(l, ".") <==> PyStr.EndsWith(s, ".") by {
      if |s| > 0 {
        assert l[|l| - 1..] == [l[|l| - 1]] && s[|s| - 1..] == [s[|s| - 1]];
      }
    }
  }

  /**
   * Cleaning twice gives the once-cleaned name exactly when the name does not
   * end in "..": only one trailing dot is dropped per call.
   */
  lemma {:induction false} CleanNameserverIdempotent(s: string)
    ensures CleanNameserver(CleanNameserver(s)) == CleanNameserver(s) <==> !PyStr.EndsWith(s, "..")
  {
    var r := CleanNameserver(s);
    var n := |s|;
    if PyStr.EndsWith(s, "..") {
      assert s[n - 1] == s[n - 2..][1] == '.';
      assert r[n - 2] == PyStr.LowerChar(s[n - 2]) == PyStr.LowerChar(s[n - 2..][0]) == '.';
      assert r[|r| - 1..] == ".";
      assert |CleanNameserver(r)| < |r|;
    } else {
      assert !PyStr.EndsWith(r, ".") by {
        if |r| > 0 {
          CleanedLastIsNotDot(s);
          assert r[|r| - 1..] == [r[|r| - 1]];
        }
      }
      var t := if PyStr.EndsWith(s, ".") then s[..n - 1] else s;
      assert r == PyStr.Lower(t);
      PyStr.LowerIdempotent(t);
      assert CleanNameserver(r) == PyStr.Lower(r);
    }
  }

  lemma {:induction false} CleanedLastIsNotDot(s: string)
    requires !PyStr.EndsWith(s, "..") && |CleanNameserver(s)| > 0
    ensures CleanNameserver(s)[|CleanNameserver(s)| - 1] != '.'
  {
    var r, n := CleanNameserver(s), |s|;
    if PyStr.EndsWith(s, ".") {
      assert s[n - 1..][0] == s[n - 1];
      assert s[n - 2..] == [s[n - 2], s[n - 1]];
      assert r[|r| - 1] == PyStr.LowerChar(s[n - 2]);
    } else {
      assert s[n - 1..] == [s[n - 1]];
      assert r[|r| - 1] == PyStr.LowerChar(s[n - 1]);
    }
  }

  lemma {:induction false} CleanNameserverExample()
    ensures CleanNameserver("NS1.Example.RU.") == "ns1.example.ru"
    ensures CleanNameserver("ns2.example.ru") == "ns2.example.ru"
  {
    assert "NS1.Example.RU."[14..] == ".";
    assert !PyStr.EndsWith("ns2.example.ru", ".") by {
      assert "ns2.example.ru"[13..] == "u";
    }
  }

  /**
   * `RegexpMatcher(attribute_name, regexp, multi_value, clean)`.  The regular
   * expression is abstract: `regexp(line)` is `None` when `regexp.match(line)`
   * fails, and otherwise the value of the group named `attributeName`, which
   * is itself `None` when that group took no part in the match.  `clean` is
   * the optional clean-up callable, which may also answer `None`.
   */
  datatype RegexpMatcher = RegexpMatcher(
    attributeName: string,
    regexp: string -> Option<Option<string>>,
    multiValue: bool,
    clean: Option<string -> Option<string>>)
  {
    /** What `add_to_whois` keeps of a group value: nothing for `None`, else the cleaned value. */
    function Cleaned(value: Option<string>): (r: Option<string>)
      ensures value.None? ==> r.None?
      ensures clean.None? ==> r == value
      ensures clean.Some? && value.Some? ==> r == clean.value(value.value)
    {
      match value
      case None => None
      case Some(v) => if clean.Some? then clean.value(v) else Some(v)
    }

    /** The value one line contributes, if any. */
    function Capture(line: string): Option<string> {
      match regexp(line)
      case None => None
      case Some(group) => Cleaned(group)
    }

    /** The values the lines contribute, in line order. */
    function Captures(lines: seq<string>): (r: seq<string>)
      ensures |r| <= |lines|
    {
      if lines == [] then []
      else
        var init := Captures(lines[..|lines| - 1]);
        match Capture(lines[|lines| - 1])
        case None => init
        case Some(v) => init + [v]
    }

    /** Every capture is the value of some line. */
    lemma {:induction false} CapturesSound(lines: seq<string>, v: string)
      requires v in Captures(lines)
      ensures exists i :: 0 <= i < |lines| && Capture(lines[i]) == Some(v)
      decreases |lines|
    {
      var init := lines[..|lines| - 1];
      if v in Captures(init) {
        CapturesSound(init, v);
        var i :| 0 <= i < |init| && Capture(init[i]) == Some(v);
        assert lines[i] == init[i];
      } else {
        assert Capture(lines[|lines| - 1]) == Some(v);
      }
    }

    /** Every line's value is among the captures. */
    lemma {:induction false} CapturesComplete(lines: seq<string>, i: nat)
      requires i < |lines| && Capture(lines[i]).Some?
      ensures Capture(lines[i]).value in Captures(lines)
      decreases |lines|
    {
      if i < |lines| - 1 {
        assert lines[..|lines| - 1][i] == lines[i];
        CapturesComplete(lines[..|lines| - 1], i);
      }
    }

    lemma {:induction false} CapturesAppend(a: seq<string>, b: seq<string>)
      ensures Captures(a + b) == Captures(a) + Captures(b)
      decreases |b|
    {
      if b == [] {
        assert a + b == a;
      } else {
        var b' := b[..|b| - 1];
        assert (a + b)[..|a + b| - 1] == a + b';
        assert (a + b)[|a + b| - 1] == b[|b| - 1];
        CapturesAppend(a, b');
      }
    }

    /** The attribute `prepare_whois` creates when it is missing. */
    function Initial(): Records.Attr {
      if multiValue then Records.ListAttr([]) else Records.ScalarAttr(None)
    }

    /**
     * The attribute after the values `caps` were added to `prior`: appended to
     * the list, or the last of them replacing the single value.
     */
    function Final(prior: Records.Attr, caps: seq<string>): (r: Records.Attr)
      requires multiValue ==> prior.ListAttr?
      ensures multiValue ==> r.ListAttr? && r.items == prior.items + caps
      ensures !multiValue && caps != [] ==> r == Records.ScalarAttr(Some(caps[|caps| - 1]))
      ensures caps == [] ==> r == prior
    {
      assert prior.ListAttr? ==> prior.items + [] == prior.items;
      if multiValue then Records.ListAttr(prior.items + caps)
      else if caps == [] then prior
      else Records.ScalarAttr(Some(caps[|caps| - 1]))
    }

    lemma {:induction false} FinalConcat(prior: Records.Attr, a: seq<string>, b: seq<string>)
      requires multiValue ==> prior.ListAttr?
      ensures Final(Final(prior, a), b) == Final(prior, a + b)
    {
      if multiValue {
        assert prior.items + a + b == prior.items + (a + b);
      } else if b != [] {
        assert (a + b)[|a + b| - 1] == b[|b| - 1];
      } else {
        assert a + b == a;
      }
    }

    /** One more line read: its value, if any, goes through `Final` on its own. */
    lemma {:induction false} CaptureStep(prior: Records.Attr, lines: seq<string>, i: nat)
      requires i < |lines| && (multiValue ==> prior.ListAttr?)
      ensures Final(prior, Captures(lines[..i + 1]))
        == Final(Final(prior, Captures(lines[..i])), if Capture(lines[i]).Some? then [Capture(lines[i]).value] else [])
    {
      assert lines[..i + 1][..i] == lines[..i];
      FinalConcat(prior, Captures(lines[..i]), if Capture(lines[i]).Some? then [Capture(lines[i]).value] else []);
    }

    /**
     * The matcher can run on `attrs`: its attribute is not one the result
     * object owns, and a multi-value matcher finds a list (or nothing) there;
     * on a single value Python's `append` raises.
     */
    predicate Fits(attrs: map<string, Records.Attr>) {
      && !Records.Reserved(attributeName)
      && (multiValue && attributeName in attrs ==> attrs[attributeName].ListAttr?)
    }

    /** The attributes after the matcher has read every line of `data`. */
    function Effect(attrs: map<string, Records.Attr>, data: string): (r: map<string, Records.Attr>)
      requires Fits(attrs)
      ensures r.Keys == attrs.Keys + {attributeName}
      ensures forall k :: k in attrs && k != attributeName ==> r[k] == attrs[k]
    {
      var prior := if attributeName in attrs then attrs[attributeName] else Initial();
      attrs[attributeName := Final(prior, Captures(PyStr.SplitLines(data)))]
    }

    /** `prepare_whois`: create the attribute when it is missing. */
    method PrepareWhois(whois: Records.WhoisDomain)
      modifies whois`attrs
      ensures attributeName in old(whois.attrs) ==> whois.attrs == old(whois.attrs)
      ensures attributeName !in old(whois.attrs) ==> whois.attrs == old(whois.attrs)[attributeName := Initial()]
    {
      if attributeName !in whois.attrs {
        if multiValue {
          whois.attrs := whois.attrs[attributeName := Records.ListAttr([])];
        } else {
          whois.attrs := whois.attrs[attributeName := Records.ScalarAttr(None)];
        }
      }
    }

    /** `add_to_whois`: store a group value, cleaned, unless it or its cleaned form is `None`. */
    method AddToWhois(whois: Records.WhoisDomain, value: Option<string>)
      requires attributeName in whois.attrs
      requires multiValue ==> whois.attrs[attributeName].ListAttr?
      modifies whois`attrs
      ensures whois.attrs == old(whois.attrs)[attributeName :=
        Final(old(whois.attrs)[attributeName], if Cleaned(value).Some? then [Cleaned(value).value] else [])]
    {
      if value.None? {
        return;
      }
      var v := value.value;
      var cleaned := Some(v);
      if clean.Some? {
        cleaned := clean.value(v);
      }
      if cleaned.None? {
        return;
      }
      if multiValue {
        whois.attrs := whois.attrs[attributeName := Records.ListAttr(whois.attrs[attributeName].items + [cleaned.value])];
      } else {
        whois.attrs := whois.attrs[attributeName := Records.ScalarAttr(cleaned)];
      }
    }

    /** `matcher(whois, name, tld)`: prepare the attribute, then add the value of every matching line. */
    method Call(whois: Records.WhoisDomain, name: string, tld: Option<string>)
      requires Fits(whois.attrs)
      modifies whois`attrs
      ensures whois.attrs == Effect(old(whois.attrs), whois.whoisData)
    {
      PrepareWhois(whois);
      var lines := PyStr.SplitLines(whois.whoisData);
      ghost var start := whois.attrs;
      ghost var prior := start[attributeName];
      for i := 0 to |lines|
        invariant whois.attrs == start[attributeName := Final(prior, Captures(lines[..i]))]
      {
        CaptureStep(prior, lines, i);
        ghost var before := Final(prior, Captures(lines[..i]));
        var found := regexp(lines[i]);
        if found.Some? {
          AddToWhois(whois, found.value);
          UpdateTwice(start, attributeName, before, Final(prior, Captures(lines[..i + 1])));
        }
      }
      assert lines[..|lines|] == lines;
      UpdateTwice(old(whois.attrs), attributeName, prior, Final(prior, Captures(lines)));
    }
  }

  lemma {:induction false} UpdateTwice<K, V>(m: map<K, V>, k: K, a: V, b: V)
    ensures m[k := a][k := b] == m[k := b]
  {
  }

  /**
   * A multi-value matcher with `clean_nameserver` as its clean-up collects
   * name servers that are all lower-case and every one a cleaned group value.
   */
  lemma {:induction false} NameserversAreClean(m: RegexpMatcher, lines: seq<string>)
    requires m.clean.Some? && forall v :: m.clean.value(v) == Some(CleanNameserver(v))
    ensures forall v :: v in m.Captures(lines) ==> forall i :: 0 <= i < |v| ==> !('A' <= v[i] <= 'Z')
  {
    forall v | v in m.Captures(lines) ensures forall i :: 0 <= i < |v| ==> !('A' <= v[i] <= 'Z') {
      m.CapturesSound(lines, v);
      var j :| 0 <= j < |lines| && m.Capture(lines[j]) == Some(v);
      var group := m.regexp(lines[j]).value.value;
      assert v == CleanNameserver(group);
    }
  }
}
