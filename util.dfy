/**
 * The SRV record of RFC 2782 as the lookup tool registers it with its DNS
 * library, and the small append-only buffer that helps turn records into
 * wire data.
 */
module Util {
  import opened Wrappers
  import opened Names

  /** Data of an SRV record. The source keeps the numbers unbounded until they are packed. */
  datatype Srv = Srv(target: string, prio: int, weight: int, port: int)

  predicate EndsWithDot(s: string)
  {
    |s| > 0 && s[|s| - 1] == '.'
  }

  /**
   * The constructor: keeps the numbers, with defaults 10, 10 and 0, and
   * drops one trailing root dot from the target. An empty target has no
   * last character to inspect and fails.
   */
  function NewSrv(target: string, prio: int := 10, weight: int := 10, port: int := 0): (r: Option<Srv>)
    ensures r.Some? <==> target != ""
    ensures r.Some? ==> r.value.prio == prio && r.value.weight == weight && r.value.port == port
    ensures r.Some? ==> target == r.value.target + (if EndsWithDot(target) then "." else "")
  {
    if target == "" then None
    else if target[|target| - 1] == '.' then Some(Srv(target[..|target| - 1], prio, weight, port))
    else Some(Srv(target, prio, weight, port))
  }

  /** Omitted numbers take their defaults. */
  lemma NewSrvDefaults(target: string)
    requires target != ""
    ensures NewSrv(target).Some?
    ensures NewSrv(target).value.prio == 10 && NewSrv(target).value.weight == 10 && NewSrv(target).value.port == 0
  {
  }

  /** Normalising a target that has no trailing dot changes nothing; one dot more is removed again. */
  lemma NewSrvStripsOneDot(target: string, prio: int, weight: int, port: int)
    requires target != "" && !EndsWithDot(target)
    ensures NewSrv(target, prio, weight, port) == Some(Srv(target, prio, weight, port))
    ensures NewSrv(target + ".", prio, weight, port) == Some(Srv(target, prio, weight, port))
  {
    assert (target + ".")[..|target|] == target;
  }

  /** A value an unsigned 16-bit network field can hold. */
  predicate IsU16(v: int)
  {
    0 <= v < 0x10000
  }

  /** A value as a big-endian 16-bit field. */
  function Be16(v: int): (r: seq<byte>)
    requires IsU16(v)
    ensures |r| == 2 && ReadBe16(r[0], r[1]) == v
  {
    [v / 256, v % 256]
  }

  function ReadBe16(hi: byte, lo: byte): int
  {
    hi * 256 + lo
  }

  predicate NumbersFit(s: Srv)
  {
    IsU16(s.prio) && IsU16(s.weight) && IsU16(s.port)
  }

  /** The six octets that precede the target: priority, weight and port, each big-endian. */
  function NumberOctets(s: Srv): (r: seq<byte>)
    requires NumbersFit(s)
    ensures |r| == 6
  {
    Be16(s.prio) + Be16(s.weight) + Be16(s.port)
  }

  /**
   * The octets packing appends: priority, weight and port, then the target
   * as an uncompressed name. None when a number does not fit in 16 bits or
   * the target has a label the wire form cannot carry.
   */
  function Encode(s: Srv): (r: Option<seq<byte>>)
    ensures r.Some? <==> NumbersFit(s) && EncodeName(s.target).Some?
    ensures r.Some? ==> |r.value| > 6
    ensures r.Some? ==> ReadBe16(r.value[0], r.value[1]) == s.prio
    ensures r.Some? ==> ReadBe16(r.value[2], r.value[3]) == s.weight
    ensures r.Some? ==> ReadBe16(r.value[4], r.value[5]) == s.port
    ensures r.Some? ==> r.value[6..] == EncodeName(s.target).value
  {
    if NumbersFit(s) && EncodeName(s.target).Some? then Some(NumberOctets(s) + EncodeName(s.target).value)
    else None
  }

  /**
   * Packs the record into the caller's buffer. The numbers are written first
   * and the target after them, so a target that cannot be encoded leaves the
   * six number octets behind; numbers that do not fit write nothing.
   */
  method Pack(s: Srv, buffer: seq<byte>) returns (ok: bool, written: seq<byte>)
    ensures ok <==> Encode(s).Some?
    ensures ok ==> written == buffer + Encode(s).value
    ensures !NumbersFit(s) ==> written == buffer
    ensures NumbersFit(s) && !ok ==> written == buffer + NumberOctets(s)
  {
    written := buffer;
    if !NumbersFit(s) {
      return false, written;
    }
    written := written + NumberOctets(s);
    var name := EncodeName(s.target);
    if name.None? {
      return false, written;
    }
    assert Encode(s).value == NumberOctets(s) + name.value;
    written := written + name.value;
    ok := true;
  }

  /**
   * Reads an SRV record at offset `pos`: three big-endian numbers, then a
   * name, passed through the constructor. Returns the record and the offset
   * just past it; None when the data is short, the name is malformed, or the
   * name is the root (the constructor rejects it).
   */
  function Parse(data: seq<byte>, pos: nat): (r: Option<(Srv, nat)>)
    requires pos <= |data|
    ensures r.Some? ==> pos + 6 < r.value.1 <= |data|
    ensures r.Some? ==> r.value.0.prio == ReadBe16(data[pos], data[pos + 1])
    ensures r.Some? ==> r.value.0.weight == ReadBe16(data[pos + 2], data[pos + 3])
    ensures r.Some? ==> r.value.0.port == ReadBe16(data[pos + 4], data[pos + 5])
  {
    if |data| < pos + 6 then None
    else
      var prio, weight, port := ReadBe16(data[pos], data[pos + 1]), ReadBe16(data[pos + 2], data[pos + 3]), ReadBe16(data[pos + 4], data[pos + 5]);
      var target := DecodeName(data, pos + 6);
      if target.None? then None
      else
        var record := NewSrv(target.value.0, prio, weight, port);
        if record.None? then None else Some((record.value, target.value.1))
  }

  /** What packing needs for a round trip: numbers that fit and a target of valid labels that is not the root. */
  predicate WellFormed(s: Srv)
  {
    NumbersFit(s) && s.target != "" && EncodableLabels(Labels(s.target))
  }

  /** A target made of valid labels does not end with a dot. */
  lemma ValidTargetHasNoTrailingDot(target: string)
    requires target != "" && EncodableLabels(Labels(target))
    ensures !EndsWithDot(target)
  {
    var parts := Split(target);
    assert parts[|parts| - 1] != "";
    JoinEnd(parts);
    JoinSplit(target);
    var last := parts[|parts| - 1];
    assert last[|last| - 1] in last;
  }

  /** Parsing what was packed gives back the same record and ends just past it, wherever it stands in a message. */
  lemma ParseEncode(s: Srv, data: seq<byte>, pos: nat)
    requires WellFormed(s)
    requires pos + |Encode(s).value| <= |data|
    requires data[pos..pos + |Encode(s).value|] == Encode(s).value
    ensures Parse(data, pos) == Some((s, pos + |Encode(s).value|))
  {
    var enc := Encode(s).value;
    var name := EncodeName(s.target).value;
    SliceWithin(data, pos, enc, 0, 6);
    SliceWithin(data, pos, enc, 6, |enc|);
    ReadNumbers(s, data, pos);
    DecodeEncodeName(s.target, data, pos + 6);
    ValidTargetHasNoTrailingDot(s.target);
    assert NewSrv(s.target, s.prio, s.weight, s.port) == Some(s);
  }

  /** The six number octets, wherever they stand, read back as the record's numbers. */
  lemma ReadNumbers(s: Srv, data: seq<byte>, pos: nat)
    requires NumbersFit(s) && pos + 6 <= |data| && data[pos..pos + 6] == NumberOctets(s)
    ensures ReadBe16(data[pos], data[pos + 1]) == s.prio
    ensures ReadBe16(data[pos + 2], data[pos + 3]) == s.weight
    ensures ReadBe16(data[pos + 4], data[pos + 5]) == s.port
  {
    var octets := NumberOctets(s);
    assert data[pos] == octets[0] && data[pos + 1] == octets[1] && data[pos + 2] == octets[2];
    assert data[pos + 3] == octets[3] && data[pos + 4] == octets[4] && data[pos + 5] == octets[5];
  }

  /** An SRV record whose target is the root packs, but its octets do not parse back. */
  lemma RootTargetDoesNotRoundTrip(s: Srv, data: seq<byte>, pos: nat)
    requires NumbersFit(s) && s.target == ""
    requires pos + |NumberOctets(s)| + 1 <= |data|
    requires data[pos..pos + |NumberOctets(s)| + 1] == NumberOctets(s) + [0]
    ensures Encode(s) == Some(NumberOctets(s) + [0])
    ensures Parse(data, pos) == None
  {
    assert Labels(s.target) == [];
    assert EncodeName(s.target) == Some([0]);
    assert data[pos + 6] == 0 by { assert data[pos + 6] == (NumberOctets(s) + [0])[6]; }
    assert DecodeName(data, pos + 6) == Some(("", pos + 7));
  }

  /** The strings written so far, joined. */
  ghost function Concat(writes: seq<string>): string
  {
    if writes == [] then "" else Concat(writes[..|writes| - 1]) + writes[|writes| - 1]
  }

  /** The number of characters written so far. */
  ghost function TotalLength(writes: seq<string>): nat
  {
    if writes == [] then 0 else TotalLength(writes[..|writes| - 1]) + |writes[|writes| - 1]|
  }

  lemma {:induction false} ConcatLength(writes: seq<string>)
    ensures |Concat(writes)| == TotalLength(writes)
  {
    if writes != [] {
      ConcatLength(writes[..|writes| - 1]);
    }
  }

  function Min(a: int, b: int): int
  {
    if a < b then a else b
  }

  function Max(a: int, b: int): int
  {
    if a < b then b else a
  }

  /** An append-only text buffer that keeps its length beside its data. */
  class ToWireHelper {
    var data: string
    var length: int
    /** Every string written so far, oldest first. */
    ghost var writes: seq<string>

    ghost predicate Valid()
      reads this
    {
      data == Concat(writes) && length == |data|
    }

    constructor ()
      ensures Valid()
      ensures writes == [] && data == "" && length == 0
    {
      data := "";
      length := 0;
      writes := [];
    }

    /**
     * The first `n` characters, or all of them when there are fewer. A
     * negative `n` slices from the end, as the source's slice does, and
     * leaves off the last -n characters.
     */
    method Get(n: int) returns (r: string)
      requires Valid()
      ensures 0 <= n ==> r == data[..Min(n, |data|)]
      ensures n < 0 ==> r == data[..Max(0, |data| + n)]
    {
      var k := n;
      if k > length {
        k := length;
      }
      if k >= 0 {
        r := data[..k];
      } else if length + k >= 0 {
        r := data[..length + k];
      } else {
        r := "";
      }
    }

    /** The number of characters held, which is the total written. */
    method Size() returns (n: int)
      requires Valid()
      ensures n == |data|
      ensures n == TotalLength(writes)
    {
      ConcatLength(writes);
      n := length;
    }

    method Write(s: string)
      requires Valid()
      modifies this
      ensures Valid()
      ensures writes == old(writes) + [s]
      ensures data == old(data) + s && length == old(length) + |s|
    {
      data := data + s;
      length := length + |s|;
      writes := writes + [s];
      assert writes[..|writes| - 1] == old(writes);
    }
  }
}
