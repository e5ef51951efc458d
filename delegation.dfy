/** `_resolve_authoritative_nameservers`: the walk down the delegation chain,
    one NS query per suffix of the name, from the top-level label to the
    whole name, each query sent to the server the previous reply pointed at. */
module Delegation {
  import opened Wrappers
  import opened Text
  import opened Dns

  /** The two variables the walk carries: `ns`, the server the next query
      goes to, and `result`, the last rrset in which an NS record was seen. */
  datatype WalkState = WalkState(ns: string, result: Rrset)

  function Flatten(rrsets: seq<Rrset>): Rrset
  {
    if |rrsets| == 0 then [] else rrsets[0] + Flatten(rrsets[1..])
  }

  /** The sections a reply is read from: its authority section when that is
      non-empty, else its additional section taken as a single rrset, else
      its answer section. */
  function ChosenRrsets(reply: Reply): (r: seq<Rrset>)
    ensures Flatten(r) == if |reply.authority| > 0 then Flatten(reply.authority)
                          else if |reply.additional| > 0 then Flatten(reply.additional)
                          else Flatten(reply.answer)
    ensures |reply.authority| == 0 && |reply.additional| > 0 ==> |r| == 1
  {
    assert Flatten([Flatten(reply.additional)]) == Flatten(reply.additional) + Flatten([]);
    if |reply.authority| > 0 then reply.authority
    else if |reply.additional| > 0 then [Flatten(reply.additional)]
    else reply.answer
  }

  /** One turn of the inner loop: record `rr`, met while iterating `rrset`. */
  datatype Visit = Visit(rr: Record, rrset: Rrset)

  function Pairs(records: seq<Record>, rrset: Rrset): seq<Visit>
  {
    if |records| == 0 then [] else [Visit(records[0], rrset)] + Pairs(records[1..], rrset)
  }

  /** The records the two nested loops visit, in order. */
  function Visits(rrsets: seq<Rrset>): seq<Visit>
  {
    if |rrsets| == 0 then [] else Pairs(rrsets[0], rrsets[0]) + Visits(rrsets[1..])
  }

  /** Only A and NS records change the walk's state. */
  predicate Updates(rr: Record)
  {
    rr.ARecord? || rr.NSRecord?
  }

  /** The body of the inner loop. */
  function VisitRecord(st: WalkState, v: Visit, resolve: ResolveOracle): (r: Result<WalkState, DnsError>)
    ensures r.Failure? <==> v.rr.NSRecord? && resolve(v.rr.target).None?
    ensures r.Failure? ==> r.error == ResolveFailed(v.rr.target)
    ensures r.Success? ==> r.value.ns == match Contribution(v.rr, resolve)
                                         case Some(address) => address
                                         case None => st.ns
    ensures r.Success? ==> r.value.result == if v.rr.NSRecord? then v.rrset else st.result
  {
    match v.rr
    case ARecord(address) => Success(st.(ns := address))
    case NSRecord(target) =>
      (match resolve(target)
       case None => Failure(ResolveFailed(target))
       case Some(address) => Success(WalkState(address, v.rrset)))
    case _ => Success(st)
  }

  /** The two nested loops over the chosen sections. */
  function Apply(st: WalkState, visits: seq<Visit>, resolve: ResolveOracle): Result<WalkState, DnsError>
    decreases |visits|
  {
    if |visits| == 0 then Success(st)
    else match VisitRecord(st, visits[0], resolve)
      case Failure(e) => Failure(e)
      case Success(next) => Apply(next, visits[1..], resolve)
  }

  /** The state after a NOERROR reply. */
  function Absorb(st: WalkState, reply: Reply, resolve: ResolveOracle): Result<WalkState, DnsError>
  {
    Apply(st, Visits(ChosenRrsets(reply)), resolve)
  }

  /** One turn of the outer loop: the NS query for `name`, sent to `st.ns`. */
  function Step(st: WalkState, name: string, udp: UdpOracle, resolve: ResolveOracle): Result<WalkState, DnsError>
  {
    match udp(Query(name, NS), st.ns)
    case None => Failure(QueryFailed(Query(name, NS), st.ns))
    case Some(reply) =>
      if reply.rcode != NOERROR then
        if reply.rcode == NXDOMAIN then Failure(DoesNotExist(name)) else Failure(RcodeError(reply.rcode))
      else
        Absorb(st, reply, resolve)
  }

  /** Any rcode other than NOERROR ends the walk, NXDOMAIN with its own
      error naming the suffix, any other with the rcode; a NOERROR reply
      updates the state from the chosen sections. */
  lemma StepOutcome(st: WalkState, name: string, udp: UdpOracle, resolve: ResolveOracle)
    ensures var reply := udp(Query(name, NS), st.ns);
      var r := Step(st, name, udp, resolve);
      && (reply.None? ==> r == Failure(QueryFailed(Query(name, NS), st.ns)))
      && (r == Failure(DoesNotExist(name)) <==> reply.Some? && reply.value.rcode == NXDOMAIN)
      && (r.Failure? && r.error.RcodeError?
          <==> reply.Some? && reply.value.rcode != NOERROR && reply.value.rcode != NXDOMAIN)
      && (r.Failure? && r.error.RcodeError? ==> r.error.rcode == reply.value.rcode)
      && (reply.Some? && reply.value.rcode == NOERROR ==> r == Absorb(st, reply.value, resolve))
  {
    var reply := udp(Query(name, NS), st.ns);
    if reply.Some? && reply.value.rcode == NOERROR {
      ApplyErrors(st, Visits(ChosenRrsets(reply.value)), resolve);
    }
  }

  /** The only error the record loops raise is a failed address lookup. */
  lemma {:induction false} ApplyErrors(st: WalkState, visits: seq<Visit>, resolve: ResolveOracle)
    ensures var r := Apply(st, visits, resolve);
      r.Failure? ==> r.error.ResolveFailed?
    decreases |visits|
  {
    if |visits| > 0 {
      match VisitRecord(st, visits[0], resolve)
      case Failure(_) =>
      case Success(next) => ApplyErrors(next, visits[1..], resolve);
    }
  }

  /** A turn of the outer loop, as a function of the state and the name queried. */
  type StepFn = (WalkState, string) -> Result<WalkState, DnsError>

  function Stepper(udp: UdpOracle, resolve: ResolveOracle): StepFn
  {
    (st, name) => Step(st, name, udp, resolve)
  }

  /** The suffix queried when the loop index is `i`: `'.'.join(parts[i-1:])`. */
  function Suffix(parts: seq<string>, i: nat): string
    requires 1 <= i <= |parts|
  {
    Join(parts[i - 1..], '.')
  }

  /** The outer loop, from loop index `i` down to 1. */
  function WalkFrom(parts: seq<string>, i: nat, st: WalkState, step: StepFn)
    : Result<WalkState, DnsError>
    requires i <= |parts|
    decreases i
  {
    if i == 0 then Success(st)
    else match step(st, Suffix(parts, i))
      case Failure(e) => Failure(e)
      case Success(next) => WalkFrom(parts, i - 1, next, step)
  }

  /** The closing list comprehension: one resolved address per record of
      the last NS rrset. */
  function Addresses(result: Rrset, resolve: ResolveOracle): (r: Result<seq<string>, DnsError>)
    ensures r.Success? ==> |r.value| == |result|
    ensures r.Success? ==> forall k :: 0 <= k < |result| ==> resolve(RecordText(result[k])) == Some(r.value[k])
    ensures r.Failure? <==> exists k :: 0 <= k < |result| && resolve(RecordText(result[k])).None?
  {
    if |result| == 0 then Success([])
    else match resolve(RecordText(result[0]))
      case None => Failure(ResolveFailed(RecordText(result[0])))
      case Some(address) =>
        match Addresses(result[1..], resolve)
        case Failure(e) => Failure(e)
        case Success(rest) => Success([address] + rest)
  }

  /** What the function returns (or raises) for `domain`, starting from the
      system resolver's first server `bootstrap`. */
  function AuthoritativeNameservers(domain: string, bootstrap: string, udp: UdpOracle, resolve: ResolveOracle)
    : Result<seq<string>, DnsError>
  {
    var parts := Split(domain, '.');
    match WalkFrom(parts, |parts|, WalkState(bootstrap, []), Stepper(udp, resolve))
    case Failure(e) => Failure(e)
    case Success(st) => Addresses(st.result, resolve)
  }

  /** The walk itself, as the source writes it. */
  method ResolveAuthoritativeNameservers(domain: string, bootstrap: string, udp: UdpOracle, resolve: ResolveOracle)
    returns (r: Result<seq<string>, DnsError>)
    ensures r == AuthoritativeNameservers(domain, bootstrap, udp, resolve)
  {
    var ns := bootstrap;
    var parts := Split(domain, '.');
    var result: Rrset := [];
    ghost var walk := WalkFrom(parts, |parts|, WalkState(ns, result), Stepper(udp, resolve));

    var i := |parts|;
    while i > 0
      invariant 0 <= i <= |parts|
      invariant walk == WalkFrom(parts, i, WalkState(ns, result), Stepper(udp, resolve))
    {
      var sub := Join(parts[i - 1..], '.');
      var query := Query(sub, NS);
      assert sub == Suffix(parts, i);
      ghost var step := Step(WalkState(ns, result), sub, udp, resolve);
      assert Stepper(udp, resolve)(WalkState(ns, result), sub) == step;
      assert walk == match step
        case Failure(e) => Failure(e)
        case Success(st) => WalkFrom(parts, i - 1, st, Stepper(udp, resolve));
      var response := udp(query, ns);
      if response.None? {
        return Failure(QueryFailed(query, ns));
      }
      var reply := response.value;
      if reply.rcode != NOERROR {
        if reply.rcode == NXDOMAIN {
          return Failure(DoesNotExist(sub));
        } else {
          return Failure(RcodeError(reply.rcode));
        }
      }

      var rrsets: seq<Rrset>;
      if |reply.authority| > 0 {
        rrsets := reply.authority;
      } else if |reply.additional| > 0 {
        rrsets := [Flatten(reply.additional)];
      } else {
        rrsets := reply.answer;
      }
      assert rrsets == ChosenRrsets(reply);
      assert step == Absorb(WalkState(ns, result), reply, resolve);

      var next := ReadRrsets(ns, result, rrsets, resolve);
      if next.Failure? {
        return Failure(next.error);
      }
      ns, result := next.value.ns, next.value.result;
      i := i - 1;
    }
    r := Addresses(result, resolve);
  }

  /** The nested loops over the records of the chosen sections, overwriting
      `ns` at every A and NS record and `result` at every NS record. */
  method ReadRrsets(ns0: string, result0: Rrset, rrsets: seq<Rrset>, resolve: ResolveOracle)
    returns (r: Result<WalkState, DnsError>)
    ensures r == Apply(WalkState(ns0, result0), Visits(rrsets), resolve)
  {
    var ns, result := ns0, result0;
    ghost var goal := Apply(WalkState(ns, result), Visits(rrsets), resolve);
    var j := 0;
    while j < |rrsets|
      invariant 0 <= j <= |rrsets|
      invariant goal == Apply(WalkState(ns, result), Visits(rrsets[j..]), resolve)
    {
      var rrset := rrsets[j];
      assert rrsets[j..] == [rrset] + rrsets[j + 1..];
      assert ([rrset] + rrsets[j + 1..])[1..] == rrsets[j + 1..];
      ApplyAppend(WalkState(ns, result), Pairs(rrset, rrset), Visits(rrsets[j + 1..]), resolve);
      var next := ReadRecords(ns, result, rrset, resolve);
      if next.Failure? {
        return Failure(next.error);
      }
      ns, result := next.value.ns, next.value.result;
      j := j + 1;
    }
    assert rrsets[j..] == [];
    r := Success(WalkState(ns, result));
  }

  /** The inner loop, over the records of one rrset. */
  method ReadRecords(ns0: string, result0: Rrset, rrset: Rrset, resolve: ResolveOracle)
    returns (r: Result<WalkState, DnsError>)
    ensures r == Apply(WalkState(ns0, result0), Pairs(rrset, rrset), resolve)
  {
    var ns, result := ns0, result0;
    ghost var goal := Apply(WalkState(ns, result), Pairs(rrset, rrset), resolve);
    assert rrset[0..] == rrset;
    var k := 0;
    while k < |rrset|
      invariant 0 <= k <= |rrset|
      invariant goal == Apply(WalkState(ns, result), Pairs(rrset[k..], rrset), resolve)
    {
      var rr := rrset[k];
      assert rrset[k..][1..] == rrset[k + 1..];
      match rr {
        case ARecord(address) =>
          ns := address;
        case NSRecord(target) =>
          var resolved := resolve(target);
          if resolved.None? {
            return Failure(ResolveFailed(target));
          }
          ns := resolved.value;
          result := rrset;
        case _ =>
      }
      k := k + 1;
    }
    assert rrset[k..] == [];
    r := Success(WalkState(ns, result));
  }

  // ----- The order of the queries -----

  /** The states the walk is in before each query it sends, in order; the
      k-th query asks for `Suffix(parts, i - k)` and goes to the `ns` of the
      k-th state. */
  function TraceFrom(parts: seq<string>, i: nat, st: WalkState, step: StepFn)
    : (t: seq<WalkState>)
    requires i <= |parts|
    ensures |t| <= i
    ensures i > 0 ==> |t| >= 1 && t[0] == st
    decreases i
  {
    if i == 0 then []
    else match step(st, Suffix(parts, i))
      case Failure(_) => [st]
      case Success(next) => [st] + TraceFrom(parts, i - 1, next, step)
  }

  /** Without an error the walk sends exactly `i` queries. */
  lemma {:induction false} TraceLength(parts: seq<string>, i: nat, st: WalkState, step: StepFn)
    requires i <= |parts|
    ensures WalkFrom(parts, i, st, step).Success? ==> |TraceFrom(parts, i, st, step)| == i
    decreases i
  {
    if i > 0 {
      var outcome := step(st, Suffix(parts, i));
      if outcome.Success? {
        TraceLength(parts, i - 1, outcome.value, step);
      }
    }
  }

  /** Each query is sent from the state the previous one produced. */
  lemma {:induction false} TraceLink(parts: seq<string>, i: nat, st: WalkState, step: StepFn, k: nat)
    requires i <= |parts|
    requires k + 1 < |TraceFrom(parts, i, st, step)|
    ensures var t := TraceFrom(parts, i, st, step);
      step(t[k], Suffix(parts, i - k)) == Success(t[k + 1])
    decreases i
  {
    var t := TraceFrom(parts, i, st, step);
    var outcome := step(st, Suffix(parts, i));
    assert outcome.Success?;
    var next := outcome.value;
    var rest := TraceFrom(parts, i - 1, next, step);
    assert t == [st] + rest;
    assert t[k + 1] == rest[k];
    if k > 0 {
      TraceLink(parts, i - 1, next, step, k - 1);
      assert t[k] == rest[k - 1];
      assert i - k == (i - 1) - (k - 1);
    }
  }

  /** The walk's outcome is the outcome of the last query it sent. */
  lemma {:induction false} TraceLast(parts: seq<string>, i: nat, st: WalkState, step: StepFn)
    requires 0 < i <= |parts|
    ensures var t := TraceFrom(parts, i, st, step);
      step(t[|t| - 1], Suffix(parts, i - |t| + 1)) == WalkFrom(parts, i, st, step)
    decreases i
  {
    var outcome := step(st, Suffix(parts, i));
    if outcome.Success? {
      var next := outcome.value;
      var rest := TraceFrom(parts, i - 1, next, step);
      var t := TraceFrom(parts, i, st, step);
      assert t == [st] + rest;
      if i == 1 {
        assert rest == [];
        assert WalkFrom(parts, i - 1, next, step) == Success(next);
      } else {
        TraceLast(parts, i - 1, next, step);
        assert t[|t| - 1] == rest[|rest| - 1];
        assert i - |t| + 1 == (i - 1) - |rest| + 1;
      }
    }
  }

  /** At loop index `i` the query names the last `|parts| - i + 1` labels,
      so the k-th query has k+1 labels, and the last query is the whole name. */
  lemma SuffixLabels(domain: string, i: nat)
    requires 1 <= i <= |Split(domain, '.')|
    ensures var parts := Split(domain, '.');
      && Split(Suffix(parts, i), '.') == parts[i - 1..]
      && |Split(Suffix(parts, i), '.')| == |parts| - i + 1
      && (i == 1 ==> Suffix(parts, i) == domain)
  {
    var parts := Split(domain, '.');
    SplitJoin(parts[i - 1..], '.');
    JoinSplit(domain, '.');
    assert parts[0..] == parts;
  }

  // ----- How a reply updates the state -----

  lemma {:induction false} ApplyAppend(st: WalkState, xs: seq<Visit>, ys: seq<Visit>, resolve: ResolveOracle)
    ensures Apply(st, xs + ys, resolve) ==
      match Apply(st, xs, resolve)
      case Failure(e) => Failure(e)
      case Success(mid) => Apply(mid, ys, resolve)
    decreases |xs|
  {
    if |xs| == 0 {
      assert xs + ys == ys;
    } else {
      assert (xs + ys)[0] == xs[0] && (xs + ys)[1..] == xs[1..] + ys;
      match VisitRecord(st, xs[0], resolve)
      case Failure(_) =>
      case Success(next) => ApplyAppend(next, xs[1..], ys, resolve);
    }
  }

  /** The address contributed by a visited record, if any. */
  function Contribution(rr: Record, resolve: ResolveOracle): Option<string>
  {
    match rr
    case ARecord(address) => Some(address)
    case NSRecord(target) => resolve(target)
    case _ => None
  }

  /** Reference definition of "the last one seen wins" for `ns`: the address
      of the last A or NS record visited, or the old server when there is none. */
  function LastServer(st: WalkState, visits: seq<Visit>, resolve: ResolveOracle): string
    decreases |visits|
  {
    if |visits| == 0 then st.ns
    else match Contribution(visits[|visits| - 1].rr, resolve)
      case Some(address) => address
      case None => LastServer(st, visits[..|visits| - 1], resolve)
  }

  /** Reference definition of "the last one seen wins" for `result`: the
      rrset of the last NS record visited, or the old rrset when there is none. */
  function LastNsRrset(st: WalkState, visits: seq<Visit>): Rrset
    decreases |visits|
  {
    if |visits| == 0 then st.result
    else if visits[|visits| - 1].rr.NSRecord? then visits[|visits| - 1].rrset
    else LastNsRrset(st, visits[..|visits| - 1])
  }

  /** The overwriting loops keep exactly the last A/NS record's address and
      the last NS record's rrset. */
  lemma {:induction false} LastRecordWins(st: WalkState, visits: seq<Visit>, resolve: ResolveOracle)
    requires Apply(st, visits, resolve).Success?
    ensures Apply(st, visits, resolve).value.ns == LastServer(st, visits, resolve)
    ensures Apply(st, visits, resolve).value.result == LastNsRrset(st, visits)
    decreases |visits|
  {
    if |visits| > 0 {
      var xs, v := visits[..|visits| - 1], visits[|visits| - 1];
      assert visits == xs + [v];
      ApplyAppend(st, xs, [v], resolve);
      var mid := Apply(st, xs, resolve);
      assert mid.Success?;
      LastRecordWins(st, xs, resolve);
      assert [v][1..] == [];
    }
  }

  /** A failed address lookup of an NS target is the only way the record
      loops fail. */
  lemma {:induction false} ApplyFailsIffUnresolvable(st: WalkState, visits: seq<Visit>, resolve: ResolveOracle)
    ensures Apply(st, visits, resolve).Failure?
        <==> exists k :: 0 <= k < |visits| && visits[k].rr.NSRecord? && resolve(visits[k].rr.target).None?
    decreases |visits|
  {
    if |visits| > 0 {
      match VisitRecord(st, visits[0], resolve)
      case Failure(_) =>
      case Success(next) =>
        ApplyFailsIffUnresolvable(next, visits[1..], resolve);
        if exists k :: 0 <= k < |visits| && visits[k].rr.NSRecord? && resolve(visits[k].rr.target).None? {
          var k :| 0 <= k < |visits| && visits[k].rr.NSRecord? && resolve(visits[k].rr.target).None?;
          assert k > 0;
          assert visits[1..][k - 1] == visits[k];
        }
    }
  }

  /** Records that are neither A nor NS change nothing. */
  lemma {:induction false} QuietVisitsKeepState(st: WalkState, visits: seq<Visit>, resolve: ResolveOracle)
    requires forall k :: 0 <= k < |visits| ==> !Updates(visits[k].rr)
    ensures Apply(st, visits, resolve) == Success(st)
    decreases |visits|
  {
    if |visits| > 0 {
      assert !Updates(visits[0].rr);
      QuietVisitsKeepState(st, visits[1..], resolve);
    }
  }

  lemma {:induction false} PairsShape(records: seq<Record>, rrset: Rrset)
    ensures |Pairs(records, rrset)| == |records|
    ensures forall k :: 0 <= k < |records| ==> Pairs(records, rrset)[k] == Visit(records[k], rrset)
    decreases |records|
  {
    if |records| > 0 {
      PairsShape(records[1..], rrset);
    }
  }

  /** Every visited record comes from the chosen sections, paired with the
      rrset that holds it. */
  lemma {:induction false} VisitsFromRrsets(rrsets: seq<Rrset>)
    ensures forall v :: v in Visits(rrsets) ==> v.rr in Flatten(rrsets) && v.rrset in rrsets && v.rr in v.rrset
    decreases |rrsets|
  {
    if |rrsets| > 0 {
      VisitsFromRrsets(rrsets[1..]);
      PairsShape(rrsets[0], rrsets[0]);
      forall v | v in Visits(rrsets) ensures v.rr in Flatten(rrsets) && v.rrset in rrsets && v.rr in v.rrset {
        if v in Pairs(rrsets[0], rrsets[0]) {
          var k :| 0 <= k < |rrsets[0]| && Pairs(rrsets[0], rrsets[0])[k] == v;
          assert v.rr == rrsets[0][k] && v.rrset == rrsets[0];
        } else {
          assert v in Visits(rrsets[1..]);
        }
      }
    }
  }

  /** A reply whose chosen sections hold no A and no NS record leaves both
      `ns` and `result` as they were. */
  lemma QuietReplyKeepsState(st: WalkState, reply: Reply, resolve: ResolveOracle)
    requires forall rr :: rr in Flatten(ChosenRrsets(reply)) ==> !Updates(rr)
    ensures Absorb(st, reply, resolve) == Success(st)
  {
    var visits := Visits(ChosenRrsets(reply));
    VisitsFromRrsets(ChosenRrsets(reply));
    forall k | 0 <= k < |visits| ensures !Updates(visits[k].rr) {
      assert visits[k] in visits;
    }
    QuietVisitsKeepState(st, visits, resolve);
  }

  /** Two replies that agree on the sections the priority rule picks lead to
      the same state: the sections it passes over are never read. */
  lemma OnlyChosenSectionsMatter(st: WalkState, reply: Reply, other: Reply, resolve: ResolveOracle)
    requires reply.authority == other.authority
    requires |reply.authority| == 0 ==> reply.additional == other.additional
    requires |reply.authority| == 0 && |reply.additional| == 0 ==> reply.answer == other.answer
    ensures Absorb(st, reply, resolve) == Absorb(st, other, resolve)
  {
  }

  lemma {:induction false} LastNsInPairs(st: WalkState, records: seq<Record>, rrset: Rrset)
    requires exists k :: 0 <= k < |records| && records[k].NSRecord?
    ensures LastNsRrset(st, Pairs(records, rrset)) == rrset
    decreases |records|
  {
    PairsShape(records, rrset);
    var ps := Pairs(records, rrset);
    var n := |records|;
    if !records[n - 1].NSRecord? {
      var k :| 0 <= k < n && records[k].NSRecord?;
      assert k < n - 1;
      PairsShape(records[..n - 1], rrset);
      assert ps[..n - 1] == Pairs(records[..n - 1], rrset);
      assert records[..n - 1][k] == records[k];
      LastNsInPairs(st, records[..n - 1], rrset);
    }
  }

  /** With an empty authority section, the additional section is read as one
      rrset: an NS record anywhere in it makes the whole section `result`. */
  lemma AdditionalSectionIsOneRrset(st: WalkState, reply: Reply, resolve: ResolveOracle)
    requires |reply.authority| == 0 && |reply.additional| > 0
    requires exists k :: 0 <= k < |Flatten(reply.additional)| && Flatten(reply.additional)[k].NSRecord?
    requires Absorb(st, reply, resolve).Success?
    ensures Absorb(st, reply, resolve).value.result == Flatten(reply.additional)
  {
    var whole := Flatten(reply.additional);
    assert ChosenRrsets(reply) == [whole];
    assert Visits([whole]) == Pairs(whole, whole) + Visits([]);
    assert Visits([whole]) == Pairs(whole, whole);
    LastRecordWins(st, Pairs(whole, whole), resolve);
    LastNsInPairs(st, whole, whole);
  }

  /** Visits of records that are not NS records leave `result` as it was. */
  lemma {:induction false} NoNsVisitsKeepResult(st: WalkState, visits: seq<Visit>)
    requires forall k :: 0 <= k < |visits| ==> !visits[k].rr.NSRecord?
    ensures LastNsRrset(st, visits) == st.result
    decreases |visits|
  {
    if |visits| > 0 {
      var xs := visits[..|visits| - 1];
      assert forall k :: 0 <= k < |xs| ==> xs[k] == visits[k];
      NoNsVisitsKeepResult(st, xs);
    }
  }

  /** A reply whose chosen sections hold no NS record leaves `result` as it was. */
  lemma ReplyWithoutNsKeepsResult(st: WalkState, reply: Reply, resolve: ResolveOracle)
    requires forall rr :: rr in Flatten(ChosenRrsets(reply)) ==> !rr.NSRecord?
    ensures Absorb(st, reply, resolve).Success? ==> Absorb(st, reply, resolve).value.result == st.result
  {
    var visits := Visits(ChosenRrsets(reply));
    if Apply(st, visits, resolve).Success? {
      VisitsFromRrsets(ChosenRrsets(reply));
      forall k | 0 <= k < |visits| ensures !visits[k].rr.NSRecord? {
        assert visits[k] in visits;
      }
      LastRecordWins(st, visits, resolve);
      NoNsVisitsKeepResult(st, visits);
    }
  }

  /** A walk whose every step keeps `result` ends with the `result` it started with. */
  lemma {:induction false} WalkKeepsResult(parts: seq<string>, i: nat, st: WalkState, step: StepFn)
    requires i <= |parts|
    requires forall s, name :: step(s, name).Success? ==> step(s, name).value.result == s.result
    ensures WalkFrom(parts, i, st, step).Success? ==> WalkFrom(parts, i, st, step).value.result == st.result
    decreases i
  {
    if i > 0 {
      var outcome := step(st, Suffix(parts, i));
      if outcome.Success? {
        WalkKeepsResult(parts, i - 1, outcome.value, step);
      }
    }
  }

  /** When no server ever answers with an NS record in the sections the walk
      reads, `result` stays the empty list it starts as, so the function
      returns the empty list whenever it returns at all. */
  lemma NoNsRecordMeansNoServers(domain: string, bootstrap: string, udp: UdpOracle, resolve: ResolveOracle)
    requires forall q, server :: udp(q, server).Some? ==>
      forall rr :: rr in Flatten(ChosenRrsets(udp(q, server).value)) ==> !rr.NSRecord?
    ensures AuthoritativeNameservers(domain, bootstrap, udp, resolve).Success? ==>
      AuthoritativeNameservers(domain, bootstrap, udp, resolve) == Success([])
  {
    var step := Stepper(udp, resolve);
    forall s, name | step(s, name).Success? ensures step(s, name).value.result == s.result {
      var reply := udp(Query(name, NS), s.ns);
      StepOutcome(s, name, udp, resolve);
      ReplyWithoutNsKeepsResult(s, reply.value, resolve);
    }
    var parts := Split(domain, '.');
    WalkKeepsResult(parts, |parts|, WalkState(bootstrap, []), step);
  }

  /** The name of the k-th query (counting from 0) of the walk for `domain`. */
  function QueryName(domain: string, k: nat): string
    requires k < |Split(domain, '.')|
  {
    var parts := Split(domain, '.');
    Suffix(parts, |parts| - k)
  }

  // The three lemmas below hold for any step function; the walk of the
  // source is the one with `step == Stepper(udp, resolve)`.

  /** The walk for `domain` starts in `st0` (for the source: `ns` is the
      system resolver's first server) and sends at most one query per
      label; the k-th query (from 0) names the last k+1 labels. */
  lemma QueriesDescend(domain: string, st0: WalkState, step: StepFn)
    ensures var parts := Split(domain, '.');
      var t := TraceFrom(parts, |parts|, st0, step);
      && 1 <= |t| <= |parts|
      && t[0] == st0
      && (forall k :: 0 <= k < |parts| ==> |Split(QueryName(domain, k), '.')| == k + 1)
      && forall k :: 0 <= k < |parts| ==> Split(QueryName(domain, k), '.') == parts[|parts| - k - 1..]
  {
    var parts := Split(domain, '.');
    var t := TraceFrom(parts, |parts|, st0, step);
    AllQueryNameLabels(domain);
  }

  /** `QueryNameLabels` for every query of a full walk. */
  lemma AllQueryNameLabels(domain: string)
    ensures var parts := Split(domain, '.');
      && (forall k :: 0 <= k < |parts| ==> |Split(QueryName(domain, k), '.')| == k + 1)
      && forall k :: 0 <= k < |parts| ==> Split(QueryName(domain, k), '.') == parts[|parts| - k - 1..]
  {
    forall k | 0 <= k < |Split(domain, '.')|
      ensures |Split(QueryName(domain, k), '.')| == k + 1
      ensures Split(QueryName(domain, k), '.') == Split(domain, '.')[|Split(domain, '.')| - k - 1..]
    {
      QueryNameLabels(domain, k);
    }
  }

  /** The k-th query (from 0) names the last k+1 labels. */
  lemma QueryNameLabels(domain: string, k: nat)
    requires k < |Split(domain, '.')|
    ensures |Split(QueryName(domain, k), '.')| == k + 1
    ensures Split(QueryName(domain, k), '.') == Split(domain, '.')[|Split(domain, '.')| - k - 1..]
  {
    var parts := Split(domain, '.');
    SuffixLabels(domain, |parts| - k);
  }

  /** Each query of the walk for `domain` goes out from the state the
      previous query's reply produced. */
  lemma QueriesChain(domain: string, st0: WalkState, step: StepFn)
    ensures var parts := Split(domain, '.');
      var t := TraceFrom(parts, |parts|, st0, step);
      forall k :: 0 <= k < |t| - 1 ==> step(t[k], QueryName(domain, k)) == Success(t[k + 1])
  {
    var parts := Split(domain, '.');
    var t := TraceFrom(parts, |parts|, st0, step);
    forall k | 0 <= k < |t| - 1 ensures step(t[k], QueryName(domain, k)) == Success(t[k + 1]) {
      TraceLink(parts, |parts|, st0, step, k);
    }
  }

  /** A walk for `domain` without error sends one query per label, the last
      one for the whole name. Whether it succeeds or fails, its outcome is
      the outcome of the last query it sent, so after an error no later
      suffix is queried. */
  lemma WalkOutcome(domain: string, st0: WalkState, step: StepFn)
    ensures var parts := Split(domain, '.');
      var n := |parts|;
      var t := TraceFrom(parts, n, st0, step);
      var w := WalkFrom(parts, n, st0, step);
      && (w.Success? ==> |t| == n && QueryName(domain, n - 1) == domain)
      && step(t[|t| - 1], QueryName(domain, |t| - 1)) == w
  {
    var parts := Split(domain, '.');
    var n := |parts|;
    var t := TraceFrom(parts, n, st0, step);
    var w := WalkFrom(parts, n, st0, step);
    TraceLength(parts, n, st0, step);
    LastQueryIsDomain(domain);
    TraceLast(parts, n, st0, step);
    assert QueryName(domain, |t| - 1) == Suffix(parts, n - |t| + 1);
  }

  /** The last query of a full walk names the whole domain. */
  lemma LastQueryIsDomain(domain: string)
    ensures QueryName(domain, |Split(domain, '.')| - 1) == domain
  {
    SuffixLabels(domain, 1);
  }
}
