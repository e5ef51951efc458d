/** `_has_propagated`, `_all_challenges_propagated` and the waiting part of
    `Authenticator.perform`: the challenge TXT record counts as propagated
    once every authoritative server of its name serves it and nothing else. */
module Propagation {
  import opened Wrappers
  import opened Text
  import opened Dns
  import opened Delegation

  /** The DNS as seen at one moment: the system resolver's first server and
      the two library calls. */
  datatype Network = Network(bootstrap: string, udp: UdpOracle, resolve: ResolveOracle)

  /** One challenge of a `perform` call: `validationName` stands for
      `achall.validation_domain_name(achall.domain)`, `validation` for
      `achall.validation(account_key)` and `response` for
      `achall.response(account_key)`. */
  datatype ChallengeTask = ChallengeTask(validationName: string, validation: string, response: string)

  /** `rr.to_text().strip('"') != challenge` is false for every TXT record of
      one rrset. */
  predicate RrsetMatches(rrset: Rrset, challenge: string)
    decreases |rrset|
  {
    || |rrset| == 0
    || (&& (rrset[0].TXTRecord? ==> Strip(rrset[0].text, '"') == challenge)
        && RrsetMatches(rrset[1..], challenge))
  }

  /** The two inner loops over the answer section: every TXT record, its
      quotes stripped, equals the challenge; other records are ignored. */
  function AnswerMatches(answer: seq<Rrset>, challenge: string): (ok: bool)
    ensures ok <==> forall i, j :: 0 <= i < |answer| && 0 <= j < |answer[i]| && answer[i][j].TXTRecord?
                                  ==> Strip(answer[i][j].text, '"') == challenge
    decreases |answer|
  {
    if |answer| == 0 then true
    else
      RrsetMatchesAll(answer[0], challenge);
      assert forall i :: 1 <= i < |answer| ==> answer[i] == answer[1..][i - 1];
      RrsetMatches(answer[0], challenge) && AnswerMatches(answer[1..], challenge)
  }

  lemma {:induction false} RrsetMatchesAll(rrset: Rrset, challenge: string)
    ensures RrsetMatches(rrset, challenge)
        <==> forall j :: 0 <= j < |rrset| && rrset[j].TXTRecord? ==> Strip(rrset[j].text, '"') == challenge
    decreases |rrset|
  {
    if |rrset| > 0 {
      RrsetMatchesAll(rrset[1..], challenge);
      assert forall j :: 1 <= j < |rrset| ==> rrset[j] == rrset[1..][j - 1];
    }
  }

  /** One server's reply confirms the challenge: it arrived, says NOERROR,
      and its answer section holds no other TXT value. */
  predicate Confirms(reply: Option<Reply>, challenge: string)
  {
    reply.Some? && reply.value.rcode == NOERROR && AnswerMatches(reply.value.answer, challenge)
  }

  /** The loop over the name servers of `_has_propagated`: false at the first
      server that does not confirm, raising when a query raises. */
  function ServersConfirm(servers: seq<string>, record: string, challenge: string, udp: UdpOracle)
    : (r: Result<bool, DnsError>)
    ensures r == Success(true) <==> forall i :: 0 <= i < |servers| ==> Confirms(udp(Query(record, TXT), servers[i]), challenge)
    ensures r == Success(false) ==>
      exists i :: 0 <= i < |servers| && udp(Query(record, TXT), servers[i]).Some?
               && !Confirms(udp(Query(record, TXT), servers[i]), challenge)
               && forall j :: 0 <= j < i ==> Confirms(udp(Query(record, TXT), servers[j]), challenge)
    ensures r.Failure? ==>
      exists i :: 0 <= i < |servers| && udp(Query(record, TXT), servers[i]).None?
               && forall j :: 0 <= j < i ==> Confirms(udp(Query(record, TXT), servers[j]), challenge)
    decreases |servers|
  {
    if |servers| == 0 then Success(true)
    else
      var query := Query(record, TXT);
      assert forall i :: 1 <= i < |servers| ==> servers[i] == servers[1..][i - 1];
      match udp(query, servers[0])
      case None => Failure(QueryFailed(query, servers[0]))
      case Some(reply) =>
        if reply.rcode != NOERROR then Success(false)
        else if !AnswerMatches(reply.answer, challenge) then Success(false)
        else ServersConfirm(servers[1..], record, challenge, udp)
  }

  /** `_has_propagated(record, challenge)`; a `Failure` is an exception it
      lets through, from the resolution or from a TXT query. */
  function HasPropagated(record: string, challenge: string, net: Network): (r: Result<bool, DnsError>)
    ensures r == Success(true) <==>
      var servers := AuthoritativeNameservers(record, net.bootstrap, net.udp, net.resolve);
      && servers.Success?
      && forall i :: 0 <= i < |servers.value| ==> Confirms(net.udp(Query(record, TXT), servers.value[i]), challenge)
    ensures AuthoritativeNameservers(record, net.bootstrap, net.udp, net.resolve).Failure? ==> r.Failure?
  {
    match AuthoritativeNameservers(record, net.bootstrap, net.udp, net.resolve)
    case Failure(e) => Failure(e)
    case Success(servers) => ServersConfirm(servers, record, challenge, net.udp)
  }

  /** `_all_challenges_propagated`: every challenge has propagated; the first
      one that has not, or whose check raises, makes it false. */
  function AllChallengesPropagated(tasks: seq<ChallengeTask>, net: Network): (ok: bool)
    ensures ok <==> forall i :: 0 <= i < |tasks| ==>
                      HasPropagated(tasks[i].validationName, tasks[i].validation, net) == Success(true)
    decreases |tasks|
  {
    if |tasks| == 0 then true
    else
      assert forall i :: 1 <= i < |tasks| ==> tasks[i] == tasks[1..][i - 1];
      match HasPropagated(tasks[0].validationName, tasks[0].validation, net)
      case Success(true) => AllChallengesPropagated(tasks[1..], net)
      case _ => false
  }

  /** A name whose authoritative server list is empty counts as propagated. */
  lemma NoServersIsPropagated(record: string, challenge: string, net: Network)
    requires AuthoritativeNameservers(record, net.bootstrap, net.udp, net.resolve) == Success([])
    ensures HasPropagated(record, challenge, net) == Success(true)
  {
  }

  /** A NOERROR reply with an empty answer section confirms any challenge. */
  lemma EmptyAnswerConfirms(reply: Reply, challenge: string)
    requires reply.rcode == NOERROR && reply.answer == []
    ensures Confirms(Some(reply), challenge)
  {
  }

  /** A TXT record whose one string is the challenge, rendered in quotes by
      `to_text()`, confirms it. */
  lemma QuotedChallengeConfirms(rcode: Rcode, challenge: string, authority: seq<Rrset>, additional: seq<Rrset>)
    requires rcode == NOERROR
    requires |challenge| > 0 ==> challenge[0] != '"' && challenge[|challenge| - 1] != '"'
    ensures Confirms(Some(Reply(rcode, [[TXTRecord("\"" + challenge + "\"")]], authority, additional)), challenge)
  {
    StripQuoted(challenge, '"');
    assert "\"" + challenge + "\"" == ['"'] + challenge + ['"'];
  }

  /** The moment until which `perform` waits: `propagation-seconds` after now
      when that is positive, an hour after now otherwise. */
  function Deadline(now: int, delay: int): (t: int)
    ensures t > now
    ensures t - now == (if delay > 0 then delay else 3600)
  {
    if delay > 0 then now + delay else now + 3600
  }

  /** The first loop of `Authenticator.perform`: publish each challenge
      record in turn with `_perform`, collecting the responses. `publish`
      stands for `_perform` and `Fail` for the exception it raises. */
  method PublishAll(tasks: seq<ChallengeTask>, publish: (string, string) -> Outcome<string>)
    returns (r: Result<seq<string>, string>)
    ensures r.Failure? <==>
      exists i :: 0 <= i < |tasks| && publish(tasks[i].validationName, tasks[i].validation).Fail?
    ensures r.Failure? ==>
      exists i :: && 0 <= i < |tasks|
                  && publish(tasks[i].validationName, tasks[i].validation) == Fail(r.error)
                  && forall j :: 0 <= j < i ==> publish(tasks[j].validationName, tasks[j].validation).Pass?
    ensures r.Success? ==> |r.value| == |tasks| && forall i :: 0 <= i < |tasks| ==> r.value[i] == tasks[i].response
  {
    var responses: seq<string> := [];
    var i := 0;
    while i < |tasks|
      invariant 0 <= i <= |tasks|
      invariant |responses| == i && forall j :: 0 <= j < i ==> responses[j] == tasks[j].response
      invariant forall j :: 0 <= j < i ==> publish(tasks[j].validationName, tasks[j].validation).Pass?
    {
      var task := tasks[i];
      var published := publish(task.validationName, task.validation);
      if published.Fail? {
        return Failure(published.error);
      }
      responses := responses + [task.response];
      i := i + 1;
    }
    r := Success(responses);
  }

  /** The loop `while time() < wait_until` of `Authenticator.perform`:
      `clock(k)` is the k-th reading of `time()` after the one the deadline
      was computed from (`clock(0)`), and `propagated(k)` is what
      `_all_challenges_propagated` returns right after reading k. Readings
      from the first test of the loop on are five seconds of sleep apart,
      which is what the loop needs to end. The result is the reading at
      which the loop ends. */
  method AwaitPropagation(waitUntil: int, clock: nat -> int, propagated: nat -> bool)
    returns (reading: nat)
    requires forall k: nat :: k >= 1 ==> clock(k) < clock(k + 1)
    ensures 1 <= reading
    ensures clock(reading) >= waitUntil || propagated(reading)
    ensures forall j :: 1 <= j < reading ==> clock(j) < waitUntil && !propagated(j)
  {
    reading := 1;
    while clock(reading) < waitUntil
      invariant 1 <= reading
      invariant forall j :: 1 <= j < reading ==> clock(j) < waitUntil && !propagated(j)
      decreases waitUntil - clock(reading)
    {
      if propagated(reading) {
        return;
      }
      reading := reading + 1;
    }
  }

  /** `Authenticator.perform`: publish every challenge, then wait until all
      have propagated or the deadline has passed. `exitAt` is the clock
      reading at which the wait ends. */
  method Perform(tasks: seq<ChallengeTask>, delay: int, publish: (string, string) -> Outcome<string>,
                 clock: nat -> int, net: nat -> Network)
    returns (r: Result<seq<string>, string>, ghost exitAt: nat)
    requires forall k: nat :: k >= 1 ==> clock(k) < clock(k + 1)
    ensures r.Failure? <==>
      exists i :: 0 <= i < |tasks| && publish(tasks[i].validationName, tasks[i].validation).Fail?
    ensures r.Failure? ==>
      exists i :: && 0 <= i < |tasks|
                  && publish(tasks[i].validationName, tasks[i].validation) == Fail(r.error)
                  && forall j :: 0 <= j < i ==> publish(tasks[j].validationName, tasks[j].validation).Pass?
    ensures r.Success? ==> |r.value| == |tasks| && forall i :: 0 <= i < |tasks| ==> r.value[i] == tasks[i].response
    ensures r.Success? ==> 1 <= exitAt
    ensures r.Success? ==>
      clock(exitAt) >= Deadline(clock(0), delay) || AllChallengesPropagated(tasks, net(exitAt))
    ensures r.Success? ==>
      forall j :: 1 <= j < exitAt ==> clock(j) < Deadline(clock(0), delay) && !AllChallengesPropagated(tasks, net(j))
  {
    r := PublishAll(tasks, publish);
    if r.Failure? {
      return r, 0;
    }

    var waitUntil: int;
    if delay > 0 {
      waitUntil := clock(0) + delay;
    } else {
      waitUntil := clock(0) + 3600;
    }
    assert waitUntil == Deadline(clock(0), delay);

    var reading := AwaitPropagation(waitUntil, clock, (j: nat) => AllChallengesPropagated(tasks, net(j)));
    exitAt := reading;
  }
}
