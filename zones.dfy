/**
 * Zone extraction (`extract_tld` and `SUPPORTED_TLD` in whois2/__init__.py):
 * the longest supported zone `z` such that the domain ends with "." + z
 * splits the domain into its local part and its zone.
 */
module Zones {
  import opened Wrappers
  import PyStr

  /**
   * `SUPPORTED_TLD`: the zones the library has rules for.  The source splits
   * one multi-line string on whitespace; the rows below are its lines
   * (whois2/__init__.py:6-30), concatenated in order.
   */
  const SupportedTld: seq<string> := Flatten(Rows)

  /** The lines of `SUPPORTED_TLD`, in order. */
  const Rows: seq<seq<string>> :=
    [Row06, Row07, Row08, Row09, Row10, Row11, Row12, Row13, Row14, Row15, Row16, Row17, Row18,
     Row19, Row20, Row21, Row22, Row23, Row24, Row25, Row26, Row27, Row28, Row29, Row30]

  /** The rows, concatenated in order. */
  function Flatten(rows: seq<seq<string>>): seq<string> {
    if rows == [] then [] else rows[0] + Flatten(rows[1..])
  }

  const Row06: seq<string> :=
    [
      "ac", "ad", "ae", "aero", "af", "ag", "al", "am", "aq", "as", "asia", "at", "aw", "ax", "az"
    ]
  const Row07: seq<string> :=
    [
      "ba", "bb", "be", "bg", "bh", "bi", "biz", "bj", "bm", "bo", "bs", "bt", "bz"
    ]
  const Row08: seq<string> :=
    [
      "ca", "cat", "cc", "cd", "cf", "cg", "ch", "ci", "cl", "cm", "cn", "coop", "cr", "cu", "cv",
      "cx", "cz"
    ]
  const Row09: seq<string> :=
    [
      "co", "co.ao", "co.bw", "co.ck", "co.fk", "co.id", "co.il", "co.in", "co.ke", "co.ls", "co.mz",
      "co.no", "co.nz", "co.th", "co.tz", "co.uk", "co.uz", "co.za", "co.zm", "co.zw"
    ]
  /** Line 10 of the source, in two halves. */
  const Row10: seq<string> := Row10Start + Row10End
  const Row10Start: seq<string> :=
    [
      "com", "com.ai", "com.ar", "com.au", "com.bd", "com.bn", "com.br", "com.cn", "com.cy",
      "com.eg", "com.et", "com.fj", "com.gh", "com.gn", "com.gt", "com.gu", "com.hk", "com.jm",
      "com.kh", "com.kw", "com.lb", "com.lr", "com.mt", "com.mv"
    ]
  const Row10End: seq<string> :=
    [
      "com.ng", "com.ni", "com.np", "com.nr", "com.om", "com.pa", "com.pl", "com.py", "com.qa",
      "com.ru", "com.sa", "com.sb", "com.sg", "com.sv", "com.sy", "com.tr", "com.tw", "com.ua",
      "com.uy", "com.ve", "com.vi", "com.vn", "com.ye"
    ]
  const Row11: seq<string> :=
    [
      "de", "de.com", "dj", "dk", "dm", "do", "dz"
    ]
  const Row12: seq<string> :=
    [
      "ec", "edu", "ee", "es", "eu", "eu.com"
    ]
  const Row13: seq<string> :=
    [
      "fi", "fm", "fo", "fr"
    ]
  const Row14: seq<string> :=
    [
      "ga", "gd", "ge", "gf", "gg", "gi", "gl", "gm", "gp", "gr", "gs", "gy"
    ]
  const Row15: seq<string> :=
    [
      "hk", "hm", "hn", "hr", "ht", "hu"
    ]
  const Row16: seq<string> :=
    [
      "ie", "im", "in", "info", "in.ua", "io", "ir", "is", "it"
    ]
  const Row17: seq<string> :=
    [
      "je", "jo", "jobs", "jp"
    ]
  const Row18: seq<string> :=
    [
      "kg", "ki", "kiev.ua", "kn", "kr", "ky"
    ]
  const Row19: seq<string> :=
    [
      "la", "lc", "li", "lk", "lt", "lu", "lv", "ly"
    ]
  const Row20: seq<string> :=
    [
      "ma", "mc", "md", "me", "me.uk", "mg", "mk", "mn", "mo", "mobi", "mp", "ms", "msk.ru", "mu",
      "museum", "mw", "mx", "my"
    ]
  const Row21: seq<string> :=
    [
      "na", "name", "nc", "ne", "net", "net.cn", "net.ru", "nf", "nl", "no", "nu"
    ]
  const Row22: seq<string> :=
    [
      "org", "org.cn", "org.ru", "org.uk"
    ]
  const Row23: seq<string> :=
    [
      "pe", "ph", "pk", "pl", "pn", "pr", "pro", "ps", "pt", "pw"
    ]
  const Row24: seq<string> :=
    [
      "re", "ro", "rs", "ru", "ru.com", "rw"
    ]
  const Row25: seq<string> :=
    [
      "sc", "sd", "se", "sg", "sh", "si", "sk", "sl", "sm", "sn", "so", "spb.ru", "sr", "st", "su",
      "sz"
    ]
  const Row26: seq<string> :=
    [
      "tel", "tc", "td", "tg", "tj", "tk", "tl", "tm", "tn", "to", "travel", "tt", "tv", "tw"
    ]
  const Row27: seq<string> :=
    [
      "ua", "ug", "us", "uz"
    ]
  const Row28: seq<string> :=
    [
      "vc", "vg", "vn", "vu"
    ]
  const Row29: seq<string> :=
    [
      "ws"
    ]
  const Row30: seq<string> :=
    [
      "xn--p1ai", "xxx"
    ]

  /** `domain.endswith('.' + zone)` */
  predicate IsZoneOf(domain: string, zone: string) {
    PyStr.EndsWith(domain, "." + zone)
  }

  /** Two zones of one domain that are equally long are the same zone. */
  lemma {:induction false} EqualLengthZonesAgree(domain: string, a: string, b: string)
    requires IsZoneOf(domain, a) && IsZoneOf(domain, b) && |a| == |b|
    ensures a == b
  {
    var n := |domain| - |a|;
    assert a == ("." + a)[1..] == domain[n..];
    assert b == ("." + b)[1..] == domain[n..];
  }

  /** Longest first. */
  predicate LongestFirst(zones: seq<string>) {
    forall i, j :: 0 <= i < j < |zones| ==> |zones[i]| >= |zones[j]|
  }

  /** Inserting into a longest-first list, ahead of every zone that is not longer. */
  function Insert(zone: string, sorted: seq<string>): (r: seq<string>)
    ensures multiset(r) == multiset{zone} + multiset(sorted)
    ensures |r| == |sorted| + 1
  {
    if sorted == [] || |zone| >= |sorted[0]| then [zone] + sorted
    else
      assert sorted == [sorted[0]] + sorted[1..];
      [sorted[0]] + Insert(zone, sorted[1..])
  }

  lemma {:induction false} InsertMembers(zone: string, sorted: seq<string>)
    ensures forall x :: x in Insert(zone, sorted) <==> x == zone || x in sorted
  {
    forall x ensures x in Insert(zone, sorted) <==> x == zone || x in sorted {
      assert x in Insert(zone, sorted) <==> x in multiset(Insert(zone, sorted));
      assert x in sorted <==> x in multiset(sorted);
    }
  }

  lemma {:induction false} ConsLongestFirst(head: string, rest: seq<string>)
    requires LongestFirst(rest)
    requires forall x :: x in rest ==> |x| <= |head|
    ensures LongestFirst([head] + rest)
  {
    var r := [head] + rest;
    forall i, j | 0 <= i < j < |r| ensures |r[i]| >= |r[j]| {
      if i == 0 {
        assert r[j] == rest[j - 1];
      } else {
        assert r[i] == rest[i - 1] && r[j] == rest[j - 1];
      }
    }
  }

  lemma {:induction false} InsertKeepsOrder(zone: string, sorted: seq<string>)
    requires LongestFirst(sorted)
    ensures LongestFirst(Insert(zone, sorted))
  {
    if sorted == [] || |zone| >= |sorted[0]| {
      forall x | x in sorted ensures |x| <= |zone| {
        var k :| 0 <= k < |sorted| && sorted[k] == x;
      }
      ConsLongestFirst(zone, sorted);
    } else {
      var rest := sorted[1..];
      assert LongestFirst(rest);
      InsertKeepsOrder(zone, rest);
      InsertMembers(zone, rest);
      forall x | x in Insert(zone, rest) ensures |x| <= |sorted[0]| {
        if x != zone {
          var k :| 0 <= k < |rest| && rest[k] == x;
          assert sorted[k + 1] == x;
        }
      }
      ConsLongestFirst(sorted[0], Insert(zone, rest));
    }
  }

  /**
   * `sorted(zones, key=len, reverse=True)`: the zones, longest first.
   * Python's sort is stable, and so is this one, but the order among equally
   * long zones never matters (see `FirstMatchAnyOrder`).
   */
  function SortByLength(zones: seq<string>): (r: seq<string>)
    ensures multiset(r) == multiset(zones)
    ensures LongestFirst(r)
  {
    if zones == [] then []
    else
      assert zones == [zones[0]] + zones[1..];
      var rest := SortByLength(zones[1..]);
      InsertKeepsOrder(zones[0], rest);
      Insert(zones[0], rest)
  }

  /** The loop of `extract_tld`: the first zone of the sorted list that the domain ends with. */
  function FirstMatch(sorted: seq<string>, domain: string): (r: Option<string>)
    ensures r.Some? ==> r.value in sorted && IsZoneOf(domain, r.value)
    ensures r.None? <==> forall z :: z in sorted ==> !IsZoneOf(domain, z)
  {
    if sorted == [] then None
    else if IsZoneOf(domain, sorted[0]) then Some(sorted[0])
    else
      assert forall z :: z in sorted ==> z == sorted[0] || z in sorted[1..];
      FirstMatch(sorted[1..], domain)
  }

  /** On a longest-first list the first match is a longest match. */
  lemma {:induction false} FirstMatchIsLongest(sorted: seq<string>, domain: string)
    requires LongestFirst(sorted)
    ensures FirstMatch(sorted, domain).Some? ==>
      forall z :: z in sorted && IsZoneOf(domain, z) ==> |z| <= |FirstMatch(sorted, domain).value|
  {
    if sorted != [] && !IsZoneOf(domain, sorted[0]) {
      FirstMatchIsLongest(sorted[1..], domain);
      assert forall z :: z in sorted ==> z == sorted[0] || z in sorted[1..];
    }
  }

  /**
   * Whatever order the sort leaves equally long zones in, the loop finds the
   * same zone: two equally long zones of one domain are equal.
   */
  lemma {:induction false} FirstMatchAnyOrder(p: seq<string>, q: seq<string>, domain: string)
    requires LongestFirst(p) && LongestFirst(q) && multiset(p) == multiset(q)
    ensures FirstMatch(p, domain) == FirstMatch(q, domain)
  {
    assert forall z :: z in p <==> z in q by {
      forall z ensures z in p <==> z in q {
        assert z in p <==> z in multiset(p);
        assert z in q <==> z in multiset(q);
      }
    }
    var a, b := FirstMatch(p, domain), FirstMatch(q, domain);
    FirstMatchIsLongest(p, domain);
    FirstMatchIsLongest(q, domain);
    if a.Some? && b.Some? {
      EqualLengthZonesAgree(domain, a.value, b.value);
    }
  }

  /** The zone `extract_tld` settles on: the first match among the zones sorted longest first. */
  function MatchedZone(domain: string, zones: seq<string>): (r: Option<string>)
    ensures r.None? <==> forall z :: z in zones ==> !IsZoneOf(domain, z)
    ensures r.Some? ==> r.value in zones && IsZoneOf(domain, r.value)
    ensures r.Some? ==> forall z :: z in zones && IsZoneOf(domain, z) ==> |z| <= |r.value|
  {
    var sorted := SortByLength(zones);
    assert forall z :: z in zones <==> z in sorted by {
      forall z ensures z in zones <==> z in sorted {
        assert z in zones <==> z in multiset(zones);
        assert z in sorted <==> z in multiset(sorted);
      }
    }
    FirstMatchIsLongest(sorted, domain);
    FirstMatch(sorted, domain)
  }

  /** `domain[-n:]` in Python: the last `n` characters, or the whole text when `n` is 0. */
  function TailSlice(domain: string, n: nat): string
    requires n <= |domain|
  {
    if n == 0 then domain else domain[|domain| - n..]
  }

  lemma {:induction false} SplitAtZone(domain: string, zone: string)
    requires IsZoneOf(domain, zone)
    ensures domain[..|domain| - |zone| - 1] + "." + zone == domain
    ensures zone != "" ==> TailSlice(domain, |zone|) == zone
  {
    var n := |domain| - |zone| - 1;
    assert domain[n..] == "." + zone;
    assert domain == domain[..n] + domain[n..];
    assert domain[n..][1..] == zone;
  }

  /**
   * `extract_tld(domain)` with the zone list as a parameter: the local part
   * and the zone, or the whole domain and no zone.
   */
  function ExtractTld(domain: string, zones: seq<string>): (r: (string, Option<string>))
    ensures r.1.None? <==> forall z :: z in zones ==> !IsZoneOf(domain, z)
    ensures r.1.None? ==> r.0 == domain
    ensures r.1.Some? ==> var z := MatchedZone(domain, zones).value;
      r.0 + "." + z == domain && (z != "" ==> r.1.value == z)
  {
    match MatchedZone(domain, zones)
    case None => (domain, None)
    case Some(zone) =>
      SplitAtZone(domain, zone);
      (domain[..|domain| - |zone| - 1], Some(TailSlice(domain, |zone|)))
  }

  /**
   * With a catalogue free of the empty zone (as `SUPPORTED_TLD` is), a split
   * is a longest supported zone together with the local part in front of it.
   */
  lemma {:induction false} ExtractTldSplitsAtLongestZone(domain: string, zones: seq<string>)
    requires "" !in zones
    ensures var (name, tld) := ExtractTld(domain, zones);
      tld.Some? ==>
        && tld.value in zones
        && name + "." + tld.value == domain
        && forall z :: z in zones && IsZoneOf(domain, z) ==> |z| <= |tld.value|
  {
  }

  /** Every zone is non-empty and at most 8 characters long. */
  predicate ShortZones(zones: seq<string>) {
    forall i :: 0 <= i < |zones| ==> 0 < |zones[i]| <= 8
  }

  lemma {:induction false} RowsShort1()
    ensures ShortZones(Row06) && ShortZones(Row07) && ShortZones(Row08) && ShortZones(Row09)
  {
    assert ShortZones(Row06);
    assert ShortZones(Row07);
    assert ShortZones(Row08);
    assert ShortZones(Row09);
  }

  lemma {:induction false} RowsShort2()
    ensures ShortZones(Row10)
  {
    assert ShortZones(Row10Start) && ShortZones(Row10End);
    ShortZonesConcat(Row10Start, Row10End);
  }

  lemma {:induction false} RowsShort3()
    ensures ShortZones(Row11) && ShortZones(Row12) && ShortZones(Row13) && ShortZones(Row14) && ShortZones(Row15) && ShortZones(Row16) && ShortZones(Row17) && ShortZones(Row18)
  {
    assert ShortZones(Row11);
    assert ShortZones(Row12);
    assert ShortZones(Row13);
    assert ShortZones(Row14);
    assert ShortZones(Row15);
    assert ShortZones(Row16);
    assert ShortZones(Row17);
    assert ShortZones(Row18);
  }

  lemma {:induction false} RowsShort4()
    ensures ShortZones(Row19) && ShortZones(Row20) && ShortZones(Row21) && ShortZones(Row22) && ShortZones(Row23) && ShortZones(Row24)
  {
    assert ShortZones(Row19);
    assert ShortZones(Row20);
    assert ShortZones(Row21);
    assert ShortZones(Row22);
    assert ShortZones(Row23);
    assert ShortZones(Row24);
  }

  lemma {:induction false} RowsShort5()
    ensures ShortZones(Row25) && ShortZones(Row26) && ShortZones(Row27) && ShortZones(Row28) && ShortZones(Row29) && ShortZones(Row30)
  {
    assert ShortZones(Row25);
    assert ShortZones(Row26);
    assert ShortZones(Row27);
    assert ShortZones(Row28);
    assert ShortZones(Row29);
    assert ShortZones(Row30);
  }


  lemma {:induction false} ShortZonesConcat(a: seq<string>, b: seq<string>)
    requires ShortZones(a) && ShortZones(b)
    ensures ShortZones(a + b)
  {
    forall i | 0 <= i < |a + b| ensures 0 < |(a + b)[i]| <= 8 {
      if i >= |a| {
        assert (a + b)[i] == b[i - |a|];
      }
    }
  }

  /** Every supported zone is non-empty and at most 8 characters long. */
  lemma {:induction false} SupportedTldShape()
    ensures ShortZones(SupportedTld)
  {
    RowsShort1();
    RowsShort2();
    RowsShort3();
    RowsShort4();
    RowsShort5();
    assert forall i :: 0 <= i < |Rows| ==> ShortZones(Rows[i]);
    FlattenShort(Rows);
  }

  /** Rows of short zones flatten to short zones. */
  lemma {:induction false} FlattenShort(rows: seq<seq<string>>)
    requires forall i :: 0 <= i < |rows| ==> ShortZones(rows[i])
    ensures ShortZones(Flatten(rows))
    decreases |rows|
  {
    if rows != [] {
      FlattenShort(rows[1..]);
      ShortZonesConcat(rows[0], Flatten(rows[1..]));
    }
  }

  lemma {:induction false} SupportedTldHasRu()
    ensures "org.ru" in SupportedTld && "ru" in SupportedTld && "xn--p1ai" in SupportedTld
  {
    RuRows();
    FlattenHas(Rows, 16, "org.ru");
    FlattenHas(Rows, 18, "ru");
    FlattenHas(Rows, 24, "xn--p1ai");
  }

  lemma {:induction false} RuRows()
    ensures "org.ru" in Rows[16] && "ru" in Rows[18] && "xn--p1ai" in Rows[24]
  {
    assert Rows[16] == Row22 && Rows[18] == Row24 && Rows[24] == Row30;
    assert Row22[2] == "org.ru";
    assert Row24[3] == "ru";
    assert Row30[0] == "xn--p1ai";
  }

  /** A zone of one row is in the flattened rows. */
  lemma {:induction false} FlattenHas(rows: seq<seq<string>>, i: nat, x: string)
    requires i < |rows| && x in rows[i]
    ensures x in Flatten(rows)
    decreases i
  {
    if i > 0 {
      FlattenHas(rows[1..], i - 1, x);
    }
  }

  lemma {:induction false} LinuxRuNotInRows1()
    ensures "linux.ru" !in Row06 && "linux.ru" !in Row07 && "linux.ru" !in Row08
  {
    assert "linux.ru" !in Row06;
    assert "linux.ru" !in Row07;
    assert "linux.ru" !in Row08;
  }

  lemma {:induction false} LinuxRuNotInRows2()
    ensures "linux.ru" !in Row09
  {
    assert "linux.ru" !in Row09;
  }

  lemma {:induction false} LinuxRuNotInRows3()
    ensures "linux.ru" !in Row10
  {
    assert "linux.ru" !in Row10;
  }

  lemma {:induction false} LinuxRuNotInRows4()
    ensures "linux.ru" !in Row11 && "linux.ru" !in Row12 && "linux.ru" !in Row13 && "linux.ru" !in Row14
  {
    assert "linux.ru" !in Row11;
    assert "linux.ru" !in Row12;
    assert "linux.ru" !in Row13;
    assert "linux.ru" !in Row14;
  }

  lemma {:induction false} LinuxRuNotInRows5()
    ensures "linux.ru" !in Row15 && "linux.ru" !in Row16 && "linux.ru" !in Row17 && "linux.ru" !in Row18
  {
    assert "linux.ru" !in Row15;
    assert "linux.ru" !in Row16;
    assert "linux.ru" !in Row17;
    assert "linux.ru" !in Row18;
  }

  lemma {:induction false} LinuxRuNotInRows6()
    ensures "linux.ru" !in Row19 && "linux.ru" !in Row20 && "linux.ru" !in Row21 && "linux.ru" !in Row22
  {
    assert "linux.ru" !in Row19;
    assert "linux.ru" !in Row20;
    assert "linux.ru" !in Row21;
    assert "linux.ru" !in Row22;
  }

  lemma {:induction false} LinuxRuNotInRows7()
    ensures "linux.ru" !in Row23 && "linux.ru" !in Row24 && "linux.ru" !in Row25 && "linux.ru" !in Row26
  {
    assert "linux.ru" !in Row23;
    assert "linux.ru" !in Row24;
    assert "linux.ru" !in Row25;
    assert "linux.ru" !in Row26;
  }

  lemma {:induction false} LinuxRuNotInRows8()
    ensures "linux.ru" !in Row27 && "linux.ru" !in Row28 && "linux.ru" !in Row29 && "linux.ru" !in Row30
  {
    assert "linux.ru" !in Row27;
    assert "linux.ru" !in Row28;
    assert "linux.ru" !in Row29;
    assert "linux.ru" !in Row30;
  }

  /** A text in none of the rows is not in the flattened rows. */
  lemma {:induction false} FlattenLacks(rows: seq<seq<string>>, x: string)
    requires forall i :: 0 <= i < |rows| ==> x !in rows[i]
    ensures x !in Flatten(rows)
    decreases |rows|
  {
    if rows != [] {
      FlattenLacks(rows[1..], x);
    }
  }

  /** "linux.ru" is not itself a supported zone, so "www.linux.ru" splits at "ru". */
  lemma {:induction false} LinuxRuNotSupported()
    ensures "linux.ru" !in SupportedTld
  {
    LinuxRuNotInRows1();
    LinuxRuNotInRows2();
    LinuxRuNotInRows3();
    LinuxRuNotInRows4();
    LinuxRuNotInRows5();
    LinuxRuNotInRows6();
    LinuxRuNotInRows7();
    LinuxRuNotInRows8();
    FlattenLacks(Rows, "linux.ru");
  }

  /** A zone of `domain` starts right after a '.' of it. */
  lemma {:induction false} ZoneFollowsDot(domain: string, zone: string)
    requires IsZoneOf(domain, zone)
    ensures domain[|domain| - |zone| - 1] == '.'
    ensures domain[|domain| - |zone|..] == zone
  {
    var n := |domain| - |zone| - 1;
    assert domain[n..][0] == ("." + zone)[0];
    assert domain[n..][1..] == ("." + zone)[1..];
  }

  lemma {:induction false} SupportedZoneIsShort(zone: string)
    requires zone in SupportedTld
    ensures 0 < |zone| <= 8
  {
    SupportedTldShape();
    var i :| 0 <= i < |SupportedTld| && SupportedTld[i] == zone;
  }

  /** When the matched zone is known, so is the split. */
  lemma {:induction false} ExtractTldAt(domain: string, zones: seq<string>, name: string, zone: string)
    requires MatchedZone(domain, zones) == Some(zone) && zone != ""
    requires domain == name + "." + zone
    ensures ExtractTld(domain, zones) == (name, Some(zone))
  {
    var r := ExtractTld(domain, zones);
    assert r.0 + "." + zone == name + "." + zone;
    assert r.0 == (r.0 + "." + zone)[..|name|] == (name + "." + zone)[..|name|] == name;
  }

  /**
   * A supported zone of `domain` that every other supported zone of it, all
   * of them short, must equal is the matched one.
   */
  lemma {:induction false} MatchedZoneIs(domain: string, zones: seq<string>, zone: string)
    requires zone in zones && IsZoneOf(domain, zone) && ShortZones(zones)
    requires forall z :: IsZoneOf(domain, z) && |zone| <= |z| <= 8 ==> z == zone
    ensures MatchedZone(domain, zones) == Some(zone)
  {
    var z := MatchedZone(domain, zones).value;
    var i :| 0 <= i < |zones| && zones[i] == z;
  }

  /**
   * A domain `name.zone` with `zone` catalogued, and no other zone of it as
   * long or longer (up to the catalogue's bound), splits at `zone`.
   */
  lemma {:induction false} ExtractTldUnique(domain: string, zones: seq<string>, name: string, zone: string)
    requires zone in zones && zone != "" && ShortZones(zones)
    requires domain == name + "." + zone
    requires forall z :: IsZoneOf(domain, z) && |zone| <= |z| <= 8 ==> z == zone
    ensures ExtractTld(domain, zones) == (name, Some(zone))
  {
    ZoneOfJoin(name, zone);
    MatchedZoneIs(domain, zones, zone);
    ExtractTldAt(domain, zones, name, zone);
  }

  /** `zone` is a zone of `name + "." + zone`. */
  lemma {:induction false} ZoneOfJoin(name: string, zone: string)
    ensures IsZoneOf(name + "." + zone, zone)
  {
    var domain := name + "." + zone;
    assert domain[|name|..] == "." + zone;
  }

  /** The only zone of "linux.org.ru" at least 6 and at most 8 characters long is "org.ru". */
  lemma {:induction false} OrgRuZones()
    ensures forall z :: IsZoneOf("linux.org.ru", z) && 6 <= |z| <= 8 ==> z == "org.ru"
  {
    forall z | IsZoneOf("linux.org.ru", z) && 6 <= |z| <= 8 ensures z == "org.ru" {
      OrgRuZone(z);
    }
  }

  lemma {:induction false} OrgRuZone(z: string)
    requires IsZoneOf("linux.org.ru", z) && 6 <= |z| <= 8
    ensures z == "org.ru"
  {
    var d := "linux.org.ru";
    ZoneFollowsDot(d, z);
    assert d[3] != '.' && d[4] != '.';
    assert |z| == 6;
    assert d[6..] == "org.ru";
  }

  /** The cases of the test suite: "linux.org.ru" splits at "org.ru", not at "ru". */
  lemma {:induction false} ExtractTldOrgRu(zones: seq<string>)
    requires "org.ru" in zones && ShortZones(zones)
    ensures ExtractTld("linux.org.ru", zones) == ("linux", Some("org.ru"))
  {
    assert "linux.org.ru" == "linux" + "." + "org.ru";
    OrgRuZones();
    ExtractTldUnique("linux.org.ru", zones, "linux", "org.ru");
  }

  /** The only zone of "linux.ru" at most 8 characters long is "ru". */
  lemma {:induction false} RuZones()
    ensures forall z :: IsZoneOf("linux.ru", z) && 2 <= |z| <= 8 ==> z == "ru"
  {
    forall z | IsZoneOf("linux.ru", z) && 2 <= |z| <= 8 ensures z == "ru" {
      RuZone(z);
    }
  }

  lemma {:induction false} RuZone(z: string)
    requires IsZoneOf("linux.ru", z) && 2 <= |z| <= 8
    ensures z == "ru"
  {
    var d := "linux.ru";
    ZoneFollowsDot(d, z);
    assert d[0] != '.' && d[1] != '.' && d[2] != '.' && d[3] != '.' && d[4] != '.';
    assert |z| == 2;
    assert d[6..] == "ru";
  }

  lemma {:induction false} ExtractTldRu(zones: seq<string>)
    requires "ru" in zones && ShortZones(zones)
    ensures ExtractTld("linux.ru", zones) == ("linux", Some("ru"))
  {
    assert "linux.ru" == "linux" + "." + "ru";
    RuZones();
    ExtractTldUnique("linux.ru", zones, "linux", "ru");
  }

  /** The zones of "www.linux.ru" 2 to 8 characters long are "ru" and "linux.ru". */
  lemma {:induction false} WwwLinuxRuZone(z: string)
    requires IsZoneOf("www.linux.ru", z) && 2 <= |z| <= 8
    ensures z == "ru" || z == "linux.ru"
  {
    var d := "www.linux.ru";
    ZoneFollowsDot(d, z);
    assert d[4] != '.' && d[5] != '.' && d[6] != '.' && d[7] != '.' && d[8] != '.';
    if |z| == 2 {
      assert d[10..] == "ru";
    } else {
      assert |z| == 8;
      assert d[4..] == "linux.ru";
    }
  }

  /** A name below the second level splits at "ru" when "linux.ru" is no zone of its own. */
  lemma {:induction false} ExtractTldWwwLinuxRu(zones: seq<string>)
    requires "ru" in zones && "linux.ru" !in zones && ShortZones(zones)
    ensures ExtractTld("www.linux.ru", zones) == ("www.linux", Some("ru"))
  {
    var d := "www.linux.ru";
    assert d == "www.linux" + "." + "ru";
    assert IsZoneOf(d, "ru") by { assert d[9..] == ".ru"; }
    var m := MatchedZone(d, zones).value;
    var i :| 0 <= i < |zones| && zones[i] == m;
    WwwLinuxRuZone(m);
    ExtractTldAt(d, zones, "www.linux", "ru");
  }

  /** "linux.nonexistent" has no zone between 1 and 8 characters long. */
  lemma {:induction false} NonexistentHasNoShortZone(z: string)
    requires 0 < |z| <= 8
    ensures !IsZoneOf("linux.nonexistent", z)
  {
    var d := "linux.nonexistent";
    if IsZoneOf(d, z) {
      ZoneFollowsDot(d, z);
      assert false;
    }
  }

  /** A domain under no supported zone keeps its whole text and gets no zone. */
  lemma {:induction false} ExtractTldUnsupported(zones: seq<string>)
    requires ShortZones(zones)
    ensures ExtractTld("linux.nonexistent", zones) == ("linux.nonexistent", None)
  {
    forall z | z in zones ensures !IsZoneOf("linux.nonexistent", z) {
      var i :| 0 <= i < |zones| && zones[i] == z;
      NonexistentHasNoShortZone(z);
    }
  }

  /** The test suite's three cases against `SUPPORTED_TLD` itself. */
  lemma {:induction false} ExtractTldExamples()
    ensures ExtractTld("linux.org.ru", SupportedTld) == ("linux", Some("org.ru"))
    ensures ExtractTld("linux.ru", SupportedTld) == ("linux", Some("ru"))
    ensures ExtractTld("linux.nonexistent", SupportedTld) == ("linux.nonexistent", None)
  {
    SupportedTldShape();
    SupportedTldHasRu();
    ExtractTldOrgRu(SupportedTld);
    ExtractTldRu(SupportedTld);
    ExtractTldUnsupported(SupportedTld);
  }

  lemma {:induction false} ExtractTldWwwExample()
    ensures ExtractTld("www.linux.ru", SupportedTld) == ("www.linux", Some("ru"))
  {
    SupportedTldShape();
    SupportedTldHasRu();
    LinuxRuNotSupported();
    ExtractTldWwwLinuxRu(SupportedTld);
  }

  /** The split with the two-zone catalogue {"ru", "org.ru"}, listed in either order. */
  lemma {:induction false} ExtractTldSmallCatalogue()
    ensures ExtractTld("linux.org.ru", ["ru", "org.ru"]) == ("linux", Some("org.ru"))
    ensures ExtractTld("linux.org.ru", ["org.ru", "ru"]) == ("linux", Some("org.ru"))
  {
    assert ShortZones(["ru", "org.ru"]) && ShortZones(["org.ru", "ru"]);
    ExtractTldOrgRu(["ru", "org.ru"]);
    ExtractTldOrgRu(["org.ru", "ru"]);
  }
}
