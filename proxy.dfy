/**
 * The relay's handling of one received message: answer each A question of
 * a standard query by a unicast lookup and announce every address found to
 * the mDNS group in a single response; and the endless receive loop around
 * it, over the datagrams received so far.
 */
module Proxy {
  import opened Wrappers
  import opened Dns

  /** The failures of a lookup the relay catches and skips. */
  datatype Failure = NXDomain | Timeout | NoAnswer | NoNameservers

  /**
   * What the unicast resolver does for one (name, type): return addresses in
   * its own order, fail in one of the caught ways, or fail otherwise (which
   * ends the relay).
   */
  datatype Resolution = Found(addresses: seq<string>) | NotFound(failure: Failure) | Unhandled

  /** One completed forward lookup: question name, type and a returned address. */
  datatype Lookup = Lookup(name: string, rdtype: int, address: string)

  datatype Endpoint = Endpoint(host: string, port: int)

  /** The mDNS multicast group and port. */
  const MdnsGroup := Endpoint("224.0.0.251", 5353)
  const AnswerTtl := 120
  /** Response and authoritative-answer flags (section 4.1.1 of RFC 1035). */
  const ResponseFlags := 0x8400

  /** The entries one question adds: one per address when it is an A question that resolved. */
  function QuestionLookups(q: Question, resolve: (string, int) -> Resolution): (r: seq<Lookup>)
    ensures q.qtype != TypeA ==> r == []
    ensures q.qtype == TypeA && resolve(q.qname, TypeA).Found? ==>
      |r| == |resolve(q.qname, TypeA).addresses| &&
      forall k :: 0 <= k < |r| ==> r[k] == Lookup(q.qname, TypeA, resolve(q.qname, TypeA).addresses[k])
    ensures q.qtype == TypeA && !resolve(q.qname, TypeA).Found? ==> r == []
  {
    if q.qtype != TypeA then []
    else
      match resolve(q.qname, TypeA)
      case Found(addresses) => seq(|addresses|, k requires 0 <= k < |addresses| => Lookup(q.qname, TypeA, addresses[k]))
      case _ => []
  }

  /** The entries of a list of questions, by question and then in resolver order. */
  function Lookups(qs: seq<Question>, resolve: (string, int) -> Resolution): seq<Lookup>
  {
    if qs == [] then []
    else Lookups(qs[..|qs| - 1], resolve) + QuestionLookups(qs[|qs| - 1], resolve)
  }

  /** The answer announced for one entry, in class IN with the cache-flush bit and with a fixed TTL. */
  function AnswerFor(l: Lookup): RR
  {
    RR(l.name, l.rdtype, ClassInMdns, AnswerTtl, l.address)
  }

  /** The response for a list of entries: id 0, response flags, one answer per entry in order. */
  function Reply(lookups: seq<Lookup>): (r: Message)
    ensures r.header.id == 0 && r.header.bitmap == ResponseFlags
    ensures r.header.a == |r.answers| == |lookups|
    ensures r.questions == [] && r.header.q == 0
    ensures forall k :: 0 <= k < |lookups| ==>
      r.answers[k].rname == lookups[k].name && r.answers[k].rtype == lookups[k].rdtype &&
      r.answers[k].rdata == lookups[k].address &&
      r.answers[k].rclass == ClassInMdns && r.answers[k].ttl == AnswerTtl
  {
    Message(Header(0, ResponseFlags, 0, |lookups|), [], seq(|lookups|, k requires 0 <= k < |lookups| => AnswerFor(lookups[k])))
  }

  /** What the relay sends for one message, and where: nothing, or one response to the group. */
  function Outcome(msg: Message, resolve: (string, int) -> Resolution): (r: Option<(Message, Endpoint)>)
    ensures Opcode(msg.header) != OpcodeQuery ==> r.None?
    ensures r.Some? <==> Opcode(msg.header) == OpcodeQuery && |Lookups(msg.questions, resolve)| > 0
    ensures r.Some? ==> r.value.0 == Reply(Lookups(msg.questions, resolve)) && r.value.1 == MdnsGroup
  {
    if Opcode(msg.header) != OpcodeQuery then None
    else
      var lookups := Lookups(msg.questions, resolve);
      if |lookups| == 0 then None else Some((Reply(lookups), MdnsGroup))
  }

  /** Processing the message raises nothing the relay does not catch. */
  predicate Handled(msg: Message, resolve: (string, int) -> Resolution)
  {
    Opcode(msg.header) == OpcodeQuery ==>
      forall i :: 0 <= i < |msg.questions| && msg.questions[i].qtype == TypeA ==>
        !resolve(msg.questions[i].qname, TypeA).Unhandled?
  }

  /** The `for question` loop: the entries of each question in turn, skipping the caught failures. */
  method CollectLookups(qs: seq<Question>, resolve: (string, int) -> Resolution) returns (lookups: seq<Lookup>)
    requires forall i :: 0 <= i < |qs| && qs[i].qtype == TypeA ==> !resolve(qs[i].qname, TypeA).Unhandled?
    ensures lookups == Lookups(qs, resolve)
  {
    lookups := [];
    for i := 0 to |qs|
      invariant lookups == Lookups(qs[..i], resolve)
    {
      var question := qs[i];
      assert qs[..i + 1][..i] == qs[..i];
      if question.qtype == TypeA {
        var answer := resolve(question.qname, question.qtype);
        if answer.Found? {
          var records := answer.addresses;
          ghost var before := lookups;
          for j := 0 to |records|
            invariant lookups == before + QuestionLookups(question, resolve)[..j]
          {
            lookups := lookups + [Lookup(question.qname, question.qtype, records[j])];
          }
          assert QuestionLookups(question, resolve)[..|records|] == QuestionLookups(question, resolve);
        } else {
          assert answer.NotFound?;
        }
      }
    }
    assert qs[..|qs|] == qs;
  }

  /** The `add_answer` loop: one answer per entry, appended in order, the answer count kept in step. */
  method BuildReply(lookups: seq<Lookup>) returns (resp: Message)
    ensures resp == Reply(lookups)
  {
    resp := Message(Header(0, ResponseFlags, 0, 0), [], []);
    for k := 0 to |lookups|
      invariant resp.header == Header(0, ResponseFlags, 0, k) && resp.questions == []
      invariant |resp.answers| == k
      invariant forall m :: 0 <= m < k ==> resp.answers[m] == AnswerFor(lookups[m])
    {
      var answers := resp.answers + [RR(lookups[k].name, lookups[k].rdtype, ClassInMdns, AnswerTtl, lookups[k].address)];
      resp := Message(resp.header.(a := |answers|), resp.questions, answers);
    }
    assert resp.answers == Reply(lookups).answers;
  }

  /**
   * The body of the receive loop for one message from `remote`. The sender
   * plays no part: a response always goes to the group.
   */
  method Relay(msg: Message, remote: Endpoint, resolve: (string, int) -> Resolution)
    returns (out: Option<(Message, Endpoint)>)
    requires Handled(msg, resolve)
    ensures out == Outcome(msg, resolve)
  {
    if Opcode(msg.header) != OpcodeQuery {
      return None;
    }
    var lookups := CollectLookups(msg.questions, resolve);
    if |lookups| == 0 {
      return None;
    }
    var resp := BuildReply(lookups);
    out := Some((resp, MdnsGroup));
  }

  /** The entries of two runs of questions are those of each, in order. */
  lemma {:induction false} LookupsAppend(qs1: seq<Question>, qs2: seq<Question>, resolve: (string, int) -> Resolution)
    ensures Lookups(qs1 + qs2, resolve) == Lookups(qs1, resolve) + Lookups(qs2, resolve)
    decreases |qs2|
  {
    if qs2 != [] {
      var init := qs2[..|qs2| - 1];
      assert (qs1 + qs2)[..|qs1 + qs2| - 1] == qs1 + init;
      assert (qs1 + qs2)[|qs1 + qs2| - 1] == qs2[|qs2| - 1];
      LookupsAppend(qs1, init, resolve);
    } else {
      assert qs1 + qs2 == qs1;
    }
  }

  /**
   * A question that is not of type A, or whose lookup fails in a caught way,
   * contributes nothing, and the questions around it keep their entries.
   */
  lemma {:induction false} FailureIsLocal(before: seq<Question>, q: Question, after: seq<Question>, resolve: (string, int) -> Resolution)
    requires q.qtype != TypeA || resolve(q.qname, TypeA).NotFound?
    ensures Lookups(before + [q] + after, resolve) == Lookups(before, resolve) + Lookups(after, resolve)
  {
    var single := [q];
    assert Lookups(single, resolve) == [] by {
      assert single[..0] == [];
      assert QuestionLookups(q, resolve) == [];
    }
    LookupsAppend(before, single, resolve);
    LookupsAppend(before + single, after, resolve);
  }

  /** The resolver is consulted for A questions only: resolvers that agree there give the same entries. */
  lemma {:induction false} OnlyTypeAReachesResolver(qs: seq<Question>, r1: (string, int) -> Resolution, r2: (string, int) -> Resolution)
    requires forall i :: 0 <= i < |qs| && qs[i].qtype == TypeA ==> r1(qs[i].qname, TypeA) == r2(qs[i].qname, TypeA)
    ensures Lookups(qs, r1) == Lookups(qs, r2)
  {
    if qs != [] {
      var init := qs[..|qs| - 1];
      assert forall i :: 0 <= i < |init| ==> init[i] == qs[i];
      OnlyTypeAReachesResolver(init, r1, r2);
      var last := qs[|qs| - 1];
      if last.qtype == TypeA {
        assert r1(last.qname, TypeA) == r2(last.qname, TypeA);
      }
      assert QuestionLookups(last, r1) == QuestionLookups(last, r2);
    }
  }

  /** Questions none of which asks for an A record give no entries, whatever the resolver does. */
  lemma {:induction false} NoTypeAGivesNothing(qs: seq<Question>, resolve: (string, int) -> Resolution)
    requires forall i :: 0 <= i < |qs| ==> qs[i].qtype != TypeA
    ensures Lookups(qs, resolve) == []
  {
    if qs != [] {
      var init := qs[..|qs| - 1];
      assert forall i :: 0 <= i < |init| ==> init[i] == qs[i];
      NoTypeAGivesNothing(init, resolve);
    }
  }

  /** A question that resolves to addresses. */
  predicate Resolved(q: Question, resolve: (string, int) -> Resolution)
  {
    q.qtype == TypeA && resolve(q.qname, TypeA).Found? && |resolve(q.qname, TypeA).addresses| > 0
  }

  /** Every entry is of type A and carries an address the resolver gave for an A question of that name. */
  lemma {:induction false} LookupsComeFromTypeAQuestions(qs: seq<Question>, resolve: (string, int) -> Resolution, k: nat)
    requires k < |Lookups(qs, resolve)|
    ensures Lookups(qs, resolve)[k].rdtype == TypeA
    ensures exists i :: (0 <= i < |qs| && Resolved(qs[i], resolve) && qs[i].qname == Lookups(qs, resolve)[k].name &&
                         Lookups(qs, resolve)[k].address in resolve(qs[i].qname, TypeA).addresses)
  {
    var init := qs[..|qs| - 1];
    var last := qs[|qs| - 1];
    var l := Lookups(qs, resolve)[k];
    if k < |Lookups(init, resolve)| {
      LookupsComeFromTypeAQuestions(init, resolve, k);
      var i :| 0 <= i < |init| && Resolved(init[i], resolve) && init[i].qname == l.name &&
        l.address in resolve(init[i].qname, TypeA).addresses;
      assert qs[i] == init[i];
    } else {
      var j := k - |Lookups(init, resolve)|;
      assert l == QuestionLookups(last, resolve)[j];
      assert resolve(last.qname, TypeA).addresses[j] == l.address;
      assert Resolved(qs[|qs| - 1], resolve);
    }
  }

  /** There are entries exactly when some A question resolves to at least one address. */
  lemma {:induction false} LookupsNonEmpty(qs: seq<Question>, resolve: (string, int) -> Resolution)
    ensures |Lookups(qs, resolve)| > 0 <==> exists i :: 0 <= i < |qs| && Resolved(qs[i], resolve)
  {
    if qs != [] {
      var init := qs[..|qs| - 1];
      LookupsNonEmpty(init, resolve);
      if exists i :: 0 <= i < |init| && Resolved(init[i], resolve) {
        var i :| 0 <= i < |init| && Resolved(init[i], resolve);
        assert qs[i] == init[i];
      }
      if exists i :: 0 <= i < |qs| && Resolved(qs[i], resolve) {
        var i :| 0 <= i < |qs| && Resolved(qs[i], resolve);
        if i < |init| {
          assert init[i] == qs[i];
        }
      }
    }
  }

  /**
   * The relay sends a response exactly when the message is a standard query
   * with an A question that resolved; then the response goes to the group
   * and holds one answer per entry.
   */
  lemma OutcomeSendsIff(msg: Message, resolve: (string, int) -> Resolution)
    ensures Outcome(msg, resolve).Some? <==>
      Opcode(msg.header) == OpcodeQuery && exists i :: 0 <= i < |msg.questions| && Resolved(msg.questions[i], resolve)
    ensures Outcome(msg, resolve).Some? ==>
      Outcome(msg, resolve).value.1 == MdnsGroup &&
      Outcome(msg, resolve).value.0 == Reply(Lookups(msg.questions, resolve))
  {
    LookupsNonEmpty(msg.questions, resolve);
  }

  /**
   * The relay hears its own responses on the group. Their flags word has
   * opcode 0, so they pass the opcode test, but they carry no questions and
   * so are never answered.
   */
  lemma OwnReplyIgnored(lookups: seq<Lookup>, resolve: (string, int) -> Resolution)
    ensures Opcode(Reply(lookups).header) == OpcodeQuery
    ensures Outcome(Reply(lookups), resolve) == None
  {
    assert Reply(lookups).questions == [];
  }

  /** What the relay has sent after the given datagrams, in order. */
  function Sent(inbox: seq<(Message, Endpoint)>, resolve: (string, int) -> Resolution): seq<(Message, Endpoint)>
  {
    if inbox == [] then []
    else
      var last := inbox[|inbox| - 1];
      Sent(inbox[..|inbox| - 1], resolve) + match Outcome(last.0, resolve) case None => [] case Some(p) => [p]
  }

  /** The receive loop, over the datagrams received so far (message and sender). */
  method Serve(inbox: seq<(Message, Endpoint)>, resolve: (string, int) -> Resolution)
    returns (sent: seq<(Message, Endpoint)>)
    requires forall i :: 0 <= i < |inbox| ==> Handled(inbox[i].0, resolve)
    ensures sent == Sent(inbox, resolve)
  {
    sent := [];
    for i := 0 to |inbox|
      invariant sent == Sent(inbox[..i], resolve)
    {
      var msg, remote := inbox[i].0, inbox[i].1;
      var out := Relay(msg, remote, resolve);
      assert inbox[..i + 1][..i] == inbox[..i];
      if out.Some? {
        sent := sent + [out.value];
      }
    }
    assert inbox[..|inbox|] == inbox;
  }

  /** At most one datagram goes out per datagram received, and every one goes to the group. */
  lemma {:induction false} SentToGroup(inbox: seq<(Message, Endpoint)>, resolve: (string, int) -> Resolution)
    ensures |Sent(inbox, resolve)| <= |inbox|
    ensures forall k :: 0 <= k < |Sent(inbox, resolve)| ==> Sent(inbox, resolve)[k].1 == MdnsGroup
  {
    if inbox != [] {
      SentToGroup(inbox[..|inbox| - 1], resolve);
      OutcomeSendsIff(inbox[|inbox| - 1].0, resolve);
    }
  }
}
