/**
 * The mDNS lookup tool: one query per host name, sent to the group, then
 * received packets are examined until one carries an authoritative answer
 * whose owner name is that host name, or the time runs out.
 */
module MdnsLookup {
  import opened Wrappers
  import opened Dns
  import Proxy

  /** The record type used when none is given. */
  const DefaultType := "A"

  /** ASCII upper case; every other character is kept. */
  function UpperChar(c: char): char
  {
    if 'a' <= c <= 'z' then (c as int - 32) as char else c
  }

  function Upper(s: string): (r: string)
    ensures |r| == |s|
    ensures forall i :: 0 <= i < |s| && 'a' <= s[i] <= 'z' ==> r[i] as int == s[i] as int - 32
    ensures forall i :: 0 <= i < |s| && !('a' <= s[i] <= 'z') ==> r[i] == s[i]
  {
    seq(|s|, i requires 0 <= i < |s| => UpperChar(s[i]))
  }

  /** The type code for the option's value, in upper case; None when the type table has no such name. */
  function QueryType(option: string, types: Table): (r: Option<int>)
    ensures r.Some? <==> Upper(option) in types.reverse
    ensures r.Some? ==> r.value == types.reverse[Upper(option)]
  {
    var name := Upper(option);
    if name in types.reverse then Some(types.reverse[name]) else None
  }

  /** Once SRV is registered, the type option "srv", in any case, names type 33. */
  lemma SrvOptionNamesSrv(types: Table, option: string)
    requires Upper(option) == "SRV"
    ensures QueryType(option, SrvTypes(types)) == Some(TypeSrv)
  {
  }

  /** The query for one host name: id 0, all flags clear, one question in class IN. */
  function QueryFor(hostname: string, qtype: int): (r: Message)
    ensures r.header.id == 0 && r.header.bitmap == 0
    ensures r.questions == [Question(hostname, qtype, ClassIn)] && r.header.q == 1
    ensures r.answers == [] && r.header.a == 0
  {
    Message(Header(0, 0, 1, 0), [Question(hostname, qtype, ClassIn)], [])
  }

  /** A packet is looked at only when it is an authoritative answer with at least one answer record. */
  predicate Examined(d: Message)
  {
    AA(d.header) == 1 && d.header.a > 0
  }

  /** Answer `i` is the first whose owner name is exactly the host name. */
  predicate IsFirstMatch(rr: seq<RR>, hostname: string, i: int)
  {
    0 <= i < |rr| && rr[i].rname == hostname && forall j :: 0 <= j < i ==> rr[j].rname != hostname
  }

  predicate HasMatch(rr: seq<RR>, hostname: string)
  {
    exists i :: 0 <= i < |rr| && rr[i].rname == hostname
  }

  /** The packet answers the query for the host name. */
  predicate Accepts(d: Message, hostname: string)
  {
    Examined(d) && HasMatch(d.answers, hostname)
  }

  /** The scan over the answers, stopping at the first one owned by the host name. */
  method FindAnswer(rr: seq<RR>, hostname: string) returns (found: Option<nat>)
    ensures found.Some? ==> IsFirstMatch(rr, hostname, found.value)
    ensures found.None? ==> !HasMatch(rr, hostname)
  {
    found := None;
    var i := 0;
    while i < |rr|
      invariant 0 <= i <= |rr|
      invariant forall j :: 0 <= j < i ==> rr[j].rname != hostname
    {
      if rr[i].rname == hostname {
        found := Some(i);
        break;
      }
      i := i + 1;
    }
  }

  /** Decides whether one packet answers the query, and which answer it reports. */
  method Check(d: Message, hostname: string) returns (answer: Option<RR>)
    ensures answer.Some? <==> Accepts(d, hostname)
    ensures answer.Some? ==> exists i :: IsFirstMatch(d.answers, hostname, i) && answer.value == d.answers[i]
  {
    answer := None;
    if AA(d.header) == 1 && d.header.a > 0 {
      var found := FindAnswer(d.answers, hostname);
      if found.Some? {
        answer := Some(d.answers[found.value]);
      }
    }
  }

  /**
   * The receive loop for one host name, over the packets that arrive before
   * the time runs out. A packet that does not answer leaves the loop waiting
   * for the next; None means the time ran out.
   */
  method AwaitResponse(packets: seq<Message>, hostname: string) returns (r: Option<(nat, RR)>)
    ensures r.Some? ==> r.value.0 < |packets| && Accepts(packets[r.value.0], hostname)
    ensures r.Some? ==> exists i :: IsFirstMatch(packets[r.value.0].answers, hostname, i) &&
                                    r.value.1 == packets[r.value.0].answers[i]
    ensures r.Some? ==> forall j :: 0 <= j < r.value.0 ==> !Accepts(packets[j], hostname)
    ensures r.None? ==> forall j :: 0 <= j < |packets| ==> !Accepts(packets[j], hostname)
  {
    var i := 0;
    while i < |packets|
      invariant 0 <= i <= |packets|
      invariant forall j :: 0 <= j < i ==> !Accepts(packets[j], hostname)
    {
      var answer := Check(packets[i], hostname);
      if answer.Some? {
        return Some((i, answer.value));
      }
      i := i + 1;
    }
    return None;
  }

  /** Some packet among those received answers the query for the host name. */
  predicate Answered(packets: seq<Message>, hostname: string)
  {
    exists j :: 0 <= j < |packets| && Accepts(packets[j], hostname)
  }

  /** Packet `j` is the first among those received that answers the query for the host name. */
  predicate FirstAccepting(packets: seq<Message>, hostname: string, j: int)
  {
    0 <= j < |packets| && Accepts(packets[j], hostname) && forall k :: 0 <= k < j ==> !Accepts(packets[k], hostname)
  }

  /** `rr` is the answer the tool reports: the first match in the first packet that answers. */
  predicate Reported(packets: seq<Message>, hostname: string, rr: RR)
  {
    exists j, i :: 0 <= j < |packets| && 0 <= i < |packets[j].answers| &&
      FirstAccepting(packets, hostname, j) && IsFirstMatch(packets[j].answers, hostname, i) && rr == packets[j].answers[i]
  }

  /** The reported answer is determined by the packets: there is at most one, and it is owned by the host name. */
  lemma ReportedUnique(packets: seq<Message>, hostname: string, rr1: RR, rr2: RR)
    requires Reported(packets, hostname, rr1) && Reported(packets, hostname, rr2)
    ensures rr1 == rr2 && rr1.rname == hostname
  {
  }

  /**
   * One iteration of the tool's outer loop: the query sent for the host
   * name and the answer reported, if any packet among `packets` gives one.
   */
  method LookupOne(hostname: string, qtype: int, packets: seq<Message>) returns (query: Message, result: Option<RR>)
    ensures query == QueryFor(hostname, qtype)
    ensures result.Some? <==> Answered(packets, hostname)
    ensures result.Some? ==> Reported(packets, hostname, result.value)
  {
    query := QueryFor(hostname, qtype);
    var r := AwaitResponse(packets, hostname);
    if r.Some? {
      assert FirstAccepting(packets, hostname, r.value.0);
      result := Some(r.value.1);
    } else {
      result := None;
    }
  }

  /** How a run ends: all names looked up, no names given, or an unknown type name. */
  datatype Status = Done | Usage | UnknownType

  /**
   * The whole tool: upper-case the type, then for each host name in order
   * send its query and wait for its answer. `arrivals(i)` are the packets
   * received while waiting for the i-th name. An unknown type fails before
   * the first query is sent.
   */
  method LookupAll(hostnames: seq<string>, types: Table, arrivals: nat -> seq<Message>, typeOption: string := DefaultType)
    returns (status: Status, sent: seq<Message>, results: seq<Option<RR>>)
    ensures hostnames == [] ==> status == Usage && sent == [] && results == []
    ensures hostnames != [] && QueryType(typeOption, types).None? ==> status == UnknownType && sent == [] && results == []
    ensures hostnames != [] && QueryType(typeOption, types).Some? ==>
      && status == Done && |sent| == |hostnames| && |results| == |hostnames|
      && (forall i :: 0 <= i < |hostnames| ==> sent[i] == QueryFor(hostnames[i], QueryType(typeOption, types).value))
      && (forall i :: 0 <= i < |hostnames| ==> (results[i].Some? <==> Answered(arrivals(i), hostnames[i])))
      && (forall i :: 0 <= i < |hostnames| && results[i].Some? ==> Reported(arrivals(i), hostnames[i], results[i].value))
  {
    sent, results := [], [];
    if hostnames == [] {
      return Usage, sent, results;
    }
    var typeName := Upper(typeOption);
    if typeName !in types.reverse {
      return UnknownType, sent, results;
    }
    var qtype := types.reverse[typeName];
    for i := 0 to |hostnames|
      invariant |sent| == i && |results| == i
      invariant forall k :: 0 <= k < i ==> sent[k] == QueryFor(hostnames[k], qtype)
      invariant forall k :: 0 <= k < i ==> (results[k].Some? <==> Answered(arrivals(k), hostnames[k]))
      invariant forall k :: 0 <= k < i && results[k].Some? ==> Reported(arrivals(k), hostnames[k], results[k].value)
    {
      var query, result := LookupOne(hostnames[i], qtype, arrivals(i));
      sent := sent + [query];
      results := results + [result];
    }
    status := Done;
  }

  /** The tool's own query, heard back on the group, is never taken for an answer. */
  lemma OwnQueryNotAccepted(hostname: string, qtype: int)
    ensures !Accepts(QueryFor(hostname, qtype), hostname)
  {
  }

  /** A response of the relay answers the tool exactly when one of its entries is for that host name. */
  lemma RelayReplyAccepted(lookups: seq<Proxy.Lookup>, hostname: string)
    requires |lookups| > 0
    ensures Accepts(Proxy.Reply(lookups), hostname) <==> exists k :: 0 <= k < |lookups| && lookups[k].name == hostname
  {
    var reply := Proxy.Reply(lookups);
    assert AA(reply.header) == 1;
    if exists k :: 0 <= k < |lookups| && lookups[k].name == hostname {
      var k :| 0 <= k < |lookups| && lookups[k].name == hostname;
      assert reply.answers[k].rname == hostname;
    }
  }
}
