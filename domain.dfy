/** `_parse_domain`, identical in both API variants of the client: the last
    two dot-separated labels are the zone the provider manages, everything
    before them is the record name inside that zone. */
module Domain {
  import opened Text

  /** Python's `pieces[-2:]` and `pieces[:-2]` split point. */
  function ZoneStart(n: nat): nat
  {
    if n >= 2 then n - 2 else 0
  }

  /** (base zone, record name) of a fully qualified name. */
  function ParseDomain(domain: string): (r: (string, string))
    ensures var pieces := Split(domain, '.');
      && Split(r.0, '.') == pieces[ZoneStart(|pieces|)..]
      && |Split(r.0, '.')| <= 2
      && (|pieces| >= 3 ==> Split(r.1, '.') == pieces[..|pieces| - 2] && r.1 + "." + r.0 == domain)
      && (|pieces| <= 2 ==> r.1 == "" && r.0 == domain)
  {
    var pieces := Split(domain, '.');
    var k := ZoneStart(|pieces|);
    SplitAtZone(domain);
    (Join(pieces[k..], '.'), Join(pieces[..k], '.'))
  }

  lemma SplitAtZone(domain: string)
    ensures var pieces := Split(domain, '.');
      var k := ZoneStart(|pieces|);
      var base := Join(pieces[k..], '.');
      var record := Join(pieces[..k], '.');
      && Split(base, '.') == pieces[k..]
      && (|pieces| >= 3 ==> Split(record, '.') == pieces[..k] && record + "." + base == domain)
      && (|pieces| <= 2 ==> record == "" && base == domain)
  {
    JoinSplit(domain, '.');
    ZoneOfPieces(Split(domain, '.'), domain);
  }

  /** `SplitAtZone`, stated for the pieces of any split of `domain`. */
  lemma ZoneOfPieces(pieces: seq<string>, domain: string)
    requires |pieces| >= 1
    requires forall i :: 0 <= i < |pieces| ==> '.' !in pieces[i]
    requires Join(pieces, '.') == domain
    ensures var k := ZoneStart(|pieces|);
      var base := Join(pieces[k..], '.');
      var record := Join(pieces[..k], '.');
      && Split(base, '.') == pieces[k..]
      && (|pieces| >= 3 ==> Split(record, '.') == pieces[..k] && record + "." + base == domain)
      && (|pieces| <= 2 ==> record == "" && base == domain)
  {
    var k := ZoneStart(|pieces|);
    ZoneSplitsBack(pieces);
    if |pieces| >= 3 {
      RecordBeforeZone(pieces, k);
    } else {
      ShortNameIsZone(pieces);
    }
  }

  /** The zone part of the pieces splits back into itself once joined. */
  lemma ZoneSplitsBack(pieces: seq<string>)
    requires |pieces| >= 1
    requires forall i :: 0 <= i < |pieces| ==> '.' !in pieces[i]
    ensures var k := ZoneStart(|pieces|);
      Split(Join(pieces[k..], '.'), '.') == pieces[k..]
  {
    var n := |pieces|;
    var k := ZoneStart(n);
    SplitJoinSlice(pieces, k, n, '.');
    assert pieces[k..n] == pieces[k..];
  }

  /** With at most two pieces all of the name is the zone. */
  lemma ShortNameIsZone(pieces: seq<string>)
    requires |pieces| <= 2
    ensures Join(pieces[ZoneStart(|pieces|)..], '.') == Join(pieces, '.')
    ensures Join(pieces[..ZoneStart(|pieces|)], '.') == ""
  {
    assert ZoneStart(|pieces|) == 0;
    assert pieces[0..] == pieces;
    assert pieces[..0] == [];
  }

  /** Cutting the pieces at `k` cuts their join at the separator between them. */
  lemma RecordBeforeZone(pieces: seq<string>, k: nat)
    requires 1 <= k < |pieces|
    requires forall i :: 0 <= i < |pieces| ==> '.' !in pieces[i]
    ensures Split(Join(pieces[..k], '.'), '.') == pieces[..k]
    ensures Join(pieces[..k], '.') + "." + Join(pieces[k..], '.') == Join(pieces, '.')
  {
    SplitJoinSlice(pieces, 0, k, '.');
    assert pieces[0..k] == pieces[..k];
    JoinAtCut(pieces, k, '.');
  }

  lemma JoinAtCut(parts: seq<string>, k: nat, sep: char)
    requires 1 <= k < |parts|
    ensures Join(parts[..k], sep) + [sep] + Join(parts[k..], sep) == Join(parts, sep)
  {
    var xs, ys := parts[..k], parts[k..];
    assert xs + ys == parts;
    JoinAppend(xs, ys, sep);
  }

  /** A run of consecutive pieces of a split splits back into itself once joined. */
  lemma SplitJoinSlice(pieces: seq<string>, lo: nat, hi: nat, sep: char)
    requires lo < hi <= |pieces|
    requires forall i :: 0 <= i < |pieces| ==> sep !in pieces[i]
    ensures Split(Join(pieces[lo..hi], sep), sep) == pieces[lo..hi]
  {
    var run := pieces[lo..hi];
    forall i | 0 <= i < |run| ensures sep !in run[i] {
      assert run[i] == pieces[lo + i];
    }
    SplitJoin(run, sep);
  }

  /** A record name in front of a two-label zone is split off exactly,
      however many labels the record name has itself. */
  lemma RecordInTwoLabelZone(record: string, name: string, tld: string)
    requires '.' !in name && '.' !in tld
    ensures ParseDomain(record + "." + name + "." + tld) == (name + "." + tld, record)
  {
    var zone := name + "." + tld;
    SplitConcat(record, zone, '.');
    assert record + "." + zone == record + "." + name + "." + tld;
    SplitAfterPrefix(name, tld, '.');
    SplitWithoutSeparator(tld, '.');
    var pieces := Split(record + "." + zone, '.');
    assert pieces == Split(record, '.') + [name, tld];
    var r := ParseDomain(record + "." + zone);
    JoinSplit(record, '.');
    assert pieces[..|pieces| - 2] == Split(record, '.');
    assert r.1 == record by {
      JoinSplit(r.1, '.');
    }
    JoinSplit(r.0, '.');
    assert pieces[|pieces| - 2..] == [name, tld];
  }

  /** The client's own examples: a challenge name directly under the zone,
      and one under a subdomain of it. */
  lemma ParseChallengeNames()
    ensures ParseDomain("_acme-challenge.example.com") == ("example.com", "_acme-challenge")
    ensures ParseDomain("_acme-challenge.subdomain.example.com")
            == ("example.com", "_acme-challenge.subdomain")
  {
    var zone, tld := "example", "com";
    assert '.' !in zone && '.' !in tld;
    assert "_acme-challenge.example.com" == "_acme-challenge" + "." + zone + "." + tld;
    assert "_acme-challenge.subdomain.example.com"
        == "_acme-challenge.subdomain" + "." + zone + "." + tld;
    assert "example.com" == zone + "." + tld;
    RecordInTwoLabelZone("_acme-challenge", zone, tld);
    RecordInTwoLabelZone("_acme-challenge.subdomain", zone, tld);
  }
}
