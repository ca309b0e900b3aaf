/**
 * DNS messages as the relay and the lookup tool see them once the DNS
 * library has parsed them (RFC 1035 section 4.1), and the library's
 * two-way code tables that both programs extend when they start.
 */
module Dns {

  /** Record types and classes used by the two programs. */
  const TypeA := 1
  const TypeSrv := 33
  const ClassIn := 1
  /** Class IN with the cache-flush bit of section 10.2 of RFC 6762 set. */
  const ClassInMdns := 0x8001
  const OpcodeQuery := 0

  /** Message header: transaction id, the flags word, and the question and answer counts. */
  datatype Header = Header(id: int, bitmap: int, q: nat, a: nat)

  /** The four-bit opcode field of the flags word. */
  function Opcode(h: Header): int { (h.bitmap / 0x800) % 16 }

  /** The authoritative-answer bit of the flags word. */
  function AA(h: Header): int { (h.bitmap / 0x400) % 2 }

  datatype Question = Question(qname: string, qtype: int, qclass: int)

  /** An answer record; rdata is the text of its payload (an IPv4 address for type A). */
  datatype RR = RR(rname: string, rtype: int, rclass: int, ttl: int, rdata: string)

  datatype Message = Message(header: Header, questions: seq<Question>, answers: seq<RR>)

  /** A code table kept in both directions, code to mnemonic and mnemonic to code. */
  datatype Table = Table(forward: map<int, string>, reverse: map<string, int>)

  /** Each direction undoes the other. */
  ghost predicate Consistent(t: Table)
  {
    && (forall c :: c in t.forward ==> t.forward[c] in t.reverse && t.reverse[t.forward[c]] == c)
    && (forall m :: m in t.reverse ==> t.reverse[m] in t.forward && t.forward[t.reverse[m]] == m)
  }

  /** Registers one more code in both directions, as both programs do at start-up. */
  function Extend(t: Table, code: int, mnemonic: string): (r: Table)
    ensures code in r.forward && r.forward[code] == mnemonic
    ensures mnemonic in r.reverse && r.reverse[mnemonic] == code
    ensures forall c :: c != code ==> (c in r.forward <==> c in t.forward)
    ensures forall c :: c != code && c in t.forward ==> r.forward[c] == t.forward[c]
    ensures forall m :: m != mnemonic ==> (m in r.reverse <==> m in t.reverse)
    ensures forall m :: m != mnemonic && m in t.reverse ==> r.reverse[m] == t.reverse[m]
  {
    Table(t.forward[code := mnemonic], t.reverse[mnemonic := code])
  }

  /** Registering a code and a mnemonic that are both new, or already paired, keeps the table consistent. */
  lemma ExtendConsistent(t: Table, code: int, mnemonic: string)
    requires Consistent(t)
    requires code !in t.forward || t.forward[code] == mnemonic
    requires mnemonic !in t.reverse || t.reverse[mnemonic] == code
    ensures Consistent(Extend(t, code, mnemonic))
  {
    var r := Extend(t, code, mnemonic);
    forall c | c in r.forward
      ensures r.forward[c] in r.reverse && r.reverse[r.forward[c]] == c
    {
      if c != code {
        assert t.forward[c] != mnemonic;
      }
    }
    forall m | m in r.reverse
      ensures r.reverse[m] in r.forward && r.forward[r.reverse[m]] == m
    {
      if m != mnemonic {
        assert t.reverse[m] != code;
      }
    }
  }

  /** The class table after the "IN mDNS" registration both programs make. */
  function MdnsClasses(classes: Table): (r: Table)
    ensures ClassInMdns in r.forward && "IN mDNS" in r.reverse
    ensures r.forward[ClassInMdns] == "IN mDNS" && r.reverse["IN mDNS"] == ClassInMdns
  {
    Extend(classes, ClassInMdns, "IN mDNS")
  }

  /** The type table after the lookup tool's "SRV" registration. */
  function SrvTypes(types: Table): (r: Table)
    ensures TypeSrv in r.forward && "SRV" in r.reverse
    ensures r.forward[TypeSrv] == "SRV" && r.reverse["SRV"] == TypeSrv
  {
    Extend(types, TypeSrv, "SRV")
  }
}
