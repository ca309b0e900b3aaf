/**
 * Domain names on the wire (RFC 1035 section 3.1), uncompressed: each label
 * is a length octet followed by that many octets, and the name ends with a
 * zero octet. This stands in for the DNS library's name encoder and decoder,
 * which the SRV codec calls.
 */
module Names {
  import opened Wrappers

  /** One octet of wire data. */
  type byte = b: int | 0 <= b < 256

  /** The largest length a label octet may carry; larger values are pointers or reserved. */
  const MaxLabelLength := 63

  /** Splits text at every '.', as a string split does: "a.b" has two parts and "" has one empty part. */
  function Split(s: string): (parts: seq<string>)
    ensures |parts| > 0
    ensures forall k :: 0 <= k < |parts| ==> '.' !in parts[k]
  {
    if s == [] then [""]
    else
      var rest := Split(s[1..]);
      if s[0] == '.' then [""] + rest
      else [[s[0]] + rest[0]] + rest[1..]
  }

  /** Joins parts with '.' between them. */
  function Join(parts: seq<string>): string
    requires |parts| > 0
  {
    if |parts| == 1 then parts[0] else parts[0] + "." + Join(parts[1..])
  }

  lemma {:induction false} JoinSplit(s: string)
    ensures Join(Split(s)) == s
  {
    if s != [] {
      JoinSplit(s[1..]);
      var rest := Split(s[1..]);
      if s[0] == '.' {
        assert Split(s) == [""] + rest;
        assert ([""] + rest)[1..] == rest;
        assert s == "." + s[1..];
      } else {
        var parts := [[s[0]] + rest[0]] + rest[1..];
        assert Split(s) == parts;
        if |rest| == 1 {
          assert Join(parts) == [s[0]] + rest[0];
        } else {
          assert parts[1..] == rest[1..];
          assert Join(rest) == rest[0] + "." + Join(rest[1..]);
          assert Join(parts) == ([s[0]] + rest[0]) + "." + Join(rest[1..]);
        }
        assert s == [s[0]] + s[1..];
      }
    }
  }

  lemma {:induction false} SplitJoin(parts: seq<string>)
    requires |parts| > 0
    requires forall k :: 0 <= k < |parts| ==> '.' !in parts[k]
    ensures Split(Join(parts)) == parts
  {
    if |parts| == 1 {
      SplitDotless(parts[0]);
    } else {
      SplitJoin(parts[1..]);
      SplitAfterDotless(parts[0], Join(parts[1..]));
      assert [parts[0]] + parts[1..] == parts;
    }
  }

  /** Text without a dot is one part. */
  lemma {:induction false} SplitDotless(s: string)
    requires '.' !in s
    ensures Split(s) == [s]
  {
    if s != [] {
      assert '.' !in s[1..] by {
        forall k | 0 <= k < |s[1..]| ensures s[1..][k] != '.' { assert s[1..][k] == s[k + 1]; }
      }
      SplitDotless(s[1..]);
      assert [s[0]] + s[1..] == s;
    }
  }

  /** A dotless head followed by a dot contributes exactly one part. */
  lemma {:induction false} SplitAfterDotless(head: string, tail: string)
    requires '.' !in head
    ensures Split(head + "." + tail) == [head] + Split(tail)
  {
    if head == [] {
      assert head + "." + tail == "." + tail;
      assert ("." + tail)[1..] == tail;
    } else {
      var s := head + "." + tail;
      assert s[1..] == head[1..] + "." + tail;
      assert '.' !in head[1..] by {
        forall k | 0 <= k < |head[1..]| ensures head[1..][k] != '.' { assert head[1..][k] == head[k + 1]; }
      }
      SplitAfterDotless(head[1..], tail);
      assert s[0] == head[0];
      assert [head[0]] + head[1..] == head;
    }
  }

  /** The last character of joined parts is the last character of the last part, when that part is not empty. */
  lemma {:induction false} JoinEnd(parts: seq<string>)
    requires |parts| > 0 && parts[|parts| - 1] != ""
    ensures |Join(parts)| > 0
    ensures Join(parts)[|Join(parts)| - 1] == parts[|parts| - 1][|parts[|parts| - 1]| - 1]
  {
    if |parts| > 1 {
      JoinEnd(parts[1..]);
      assert parts[1..][|parts[1..]| - 1] == parts[|parts| - 1];
    }
  }

  /** The labels of a name written as text; the empty text is the root, which has no labels. */
  function Labels(name: string): seq<string>
  {
    if name == "" then [] else Split(name)
  }

  /** The text of a name with the given labels, without a trailing root dot. */
  function NameOf(labels: seq<string>): string
  {
    if labels == [] then "" else Join(labels)
  }

  lemma NameOfLabels(name: string)
    ensures NameOf(Labels(name)) == name
  {
    if name != "" { JoinSplit(name); }
  }

  /** Text whose every character is one octet. */
  predicate OctetText(s: string)
  {
    forall i :: 0 <= i < |s| ==> s[i] as int < 256
  }

  /** Labels of a name that the wire form can carry: one to 63 characters, each of them one octet. */
  predicate EncodableLabels(labels: seq<string>)
  {
    forall k :: 0 <= k < |labels| ==> OctetText(labels[k]) && 0 < |labels[k]| <= MaxLabelLength
  }

  /** Wire labels a length octet can announce. */
  predicate ValidLabels(labels: seq<seq<byte>>)
  {
    forall k :: 0 <= k < |labels| ==> 0 < |labels[k]| <= MaxLabelLength
  }

  function Octets(s: string): (r: seq<byte>)
    requires OctetText(s)
    ensures |r| == |s|
  {
    seq(|s|, i requires 0 <= i < |s| => s[i] as int)
  }

  function Text(octets: seq<byte>): (r: string)
    ensures |r| == |octets|
  {
    seq(|octets|, i requires 0 <= i < |octets| => octets[i] as char)
  }

  function LabelOctets(labels: seq<string>): (r: seq<seq<byte>>)
    requires EncodableLabels(labels)
    ensures ValidLabels(r)
  {
    seq(|labels|, k requires 0 <= k < |labels| => Octets(labels[k]))
  }

  function LabelTexts(labels: seq<seq<byte>>): (r: seq<string>)
    ensures |r| == |labels|
  {
    seq(|labels|, k requires 0 <= k < |labels| => Text(labels[k]))
  }

  lemma LabelTextsOctets(labels: seq<string>)
    requires EncodableLabels(labels)
    ensures LabelTexts(LabelOctets(labels)) == labels
  {
    forall k | 0 <= k < |labels|
      ensures LabelTexts(LabelOctets(labels))[k] == labels[k]
    {
      assert Text(Octets(labels[k])) == labels[k];
    }
  }

  /** The uncompressed wire form of a label sequence. */
  function EncodeLabels(labels: seq<seq<byte>>): (r: seq<byte>)
    requires ValidLabels(labels)
    ensures |r| > 0
    decreases |labels|
  {
    if labels == [] then [0]
    else [|labels[0]|] + labels[0] + EncodeLabels(labels[1..])
  }

  /**
   * Reads one name starting at offset `pos` of `data`: its labels and the
   * offset just past it. Fails when the data ends early or a length octet
   * is above 63 (compression pointers are not part of this encoding).
   */
  function DecodeLabels(data: seq<byte>, pos: nat): (r: Option<(seq<seq<byte>>, nat)>)
    requires pos <= |data|
    ensures r.Some? ==> pos < r.value.1 <= |data| && ValidLabels(r.value.0)
    decreases |data| - pos
  {
    if pos == |data| then None
    else if data[pos] == 0 then Some(([], pos + 1))
    else if data[pos] > MaxLabelLength || |data| < pos + 1 + data[pos] then None
    else
      var next := pos + 1 + data[pos];
      var tail := DecodeLabels(data, next);
      if tail.None? then None
      else Some(([data[pos + 1..next]] + tail.value.0, tail.value.1))
  }

  /** One step of decoding: a label, then whatever follows it decodes to. */
  lemma DecodeLabelsStep(data: seq<byte>, pos: nat, head: seq<byte>, labels: seq<seq<byte>>, end: nat)
    requires 0 < |head| <= MaxLabelLength && pos + 1 + |head| <= |data|
    requires data[pos] == |head| && data[pos + 1..pos + 1 + |head|] == head
    requires DecodeLabels(data, pos + 1 + |head|) == Some((labels, end))
    ensures DecodeLabels(data, pos) == Some(([head] + labels, end))
  {
  }

  /** Wherever the encoding of some labels stands in the data, decoding there gives them back and ends just past it. */
  lemma {:induction false} DecodeEncodeLabels(labels: seq<seq<byte>>, data: seq<byte>, pos: nat)
    requires ValidLabels(labels)
    requires pos + |EncodeLabels(labels)| <= |data|
    requires data[pos..pos + |EncodeLabels(labels)|] == EncodeLabels(labels)
    ensures DecodeLabels(data, pos) == Some((labels, pos + |EncodeLabels(labels)|))
    decreases |labels|
  {
    if labels == [] {
      assert data[pos] == EncodeLabels(labels)[0];
    } else {
      var end := pos + |EncodeLabels(labels)|;
      EncodingSplits(labels, data, pos);
      DecodeEncodeLabels(labels[1..], data, pos + 1 + |labels[0]|);
      assert DecodeLabels(data, pos + 1 + |labels[0]|) == Some((labels[1..], end));
      DecodeLabelsStep(data, pos, labels[0], labels[1..], end);
      assert [labels[0]] + labels[1..] == labels;
    }
  }

  /** Where the encoding of non-empty labels stands: the first label's length, its octets, then the rest's encoding. */
  lemma EncodingSplits(labels: seq<seq<byte>>, data: seq<byte>, pos: nat)
    requires ValidLabels(labels) && labels != []
    requires pos + |EncodeLabels(labels)| <= |data|
    requires data[pos..pos + |EncodeLabels(labels)|] == EncodeLabels(labels)
    ensures ValidLabels(labels[1..])
    ensures data[pos] == |labels[0]| && 0 < data[pos] <= MaxLabelLength
    ensures data[pos + 1..pos + 1 + |labels[0]|] == labels[0]
    ensures |EncodeLabels(labels)| == 1 + |labels[0]| + |EncodeLabels(labels[1..])|
    ensures data[pos + 1 + |labels[0]|..pos + |EncodeLabels(labels)|] == EncodeLabels(labels[1..])
  {
    EncodingParts(labels);
    var enc := EncodeLabels(labels);
    var n := |labels[0]|;
    SliceWithin(data, pos, enc, 0, 1);
    SliceWithin(data, pos, enc, 1, 1 + n);
    SliceWithin(data, pos, enc, 1 + n, |enc|);
    assert data[pos] == data[pos..pos + 1][0];
  }

  /** The encoding of non-empty labels, taken apart: the length octet, the first label, the rest's encoding. */
  lemma EncodingParts(labels: seq<seq<byte>>)
    requires ValidLabels(labels) && labels != []
    ensures ValidLabels(labels[1..])
    ensures |EncodeLabels(labels)| == 1 + |labels[0]| + |EncodeLabels(labels[1..])|
    ensures EncodeLabels(labels)[0..1] == [|labels[0]|]
    ensures EncodeLabels(labels)[1..1 + |labels[0]|] == labels[0]
    ensures EncodeLabels(labels)[1 + |labels[0]|..|EncodeLabels(labels)|] == EncodeLabels(labels[1..])
  {
    var enc := EncodeLabels(labels);
    var n := |labels[0]|;
    assert enc == [n] + labels[0] + EncodeLabels(labels[1..]);
  }

  /** A slice of a stretch of data that equals `part` is the same slice of `part`. */
  lemma SliceWithin(data: seq<byte>, pos: nat, part: seq<byte>, i: nat, j: nat)
    requires pos + |part| <= |data| && data[pos..pos + |part|] == part
    requires i <= j <= |part|
    ensures data[pos + i..pos + j] == part[i..j]
  {
    forall k | 0 <= k < j - i
      ensures data[pos + i..pos + j][k] == part[i..j][k]
    {
      assert data[pos + i..pos + j][k] == data[pos + i + k] == data[pos..pos + |part|][i + k];
    }
  }

  /** What a successful decode read is exactly the encoding of the labels it returned. */
  lemma {:induction false} EncodeDecodeLabels(data: seq<byte>, pos: nat)
    requires pos <= |data| && DecodeLabels(data, pos).Some?
    ensures EncodeLabels(DecodeLabels(data, pos).value.0) == data[pos..DecodeLabels(data, pos).value.1]
    decreases |data| - pos
  {
    var end := DecodeLabels(data, pos).value.1;
    if data[pos] == 0 {
      assert data[pos..end] == [0];
    } else {
      var next := pos + 1 + data[pos];
      var tail := DecodeLabels(data, next);
      var l := data[pos + 1..next];
      assert DecodeLabels(data, pos).value == ([l] + tail.value.0, tail.value.1);
      EncodeDecodeLabels(data, next);
      EncodeLabelsCons(l, tail.value.0);
      SliceAround(data, pos, next, end);
    }
  }

  /** A stretch of data is its first octet, the octets up to `next`, then the rest. */
  lemma SliceAround(data: seq<byte>, pos: nat, next: nat, end: nat)
    requires pos < next <= end <= |data|
    ensures data[pos..end] == [data[pos]] + data[pos + 1..next] + data[next..end]
  {
  }

  lemma EncodeLabelsCons(l: seq<byte>, labels: seq<seq<byte>>)
    requires 0 < |l| <= MaxLabelLength && ValidLabels(labels)
    ensures ValidLabels([l] + labels)
    ensures EncodeLabels([l] + labels) == [|l|] + l + EncodeLabels(labels)
  {
    assert ([l] + labels)[1..] == labels;
  }

  /** The wire form of a name, or None when one of its labels cannot be carried. */
  function EncodeName(name: string): (r: Option<seq<byte>>)
    ensures r.Some? <==> EncodableLabels(Labels(name))
    ensures r.Some? ==> |r.value| > 0
    ensures name == "" ==> r == Some([0])
  {
    var labels := Labels(name);
    if EncodableLabels(labels) then Some(EncodeLabels(LabelOctets(labels))) else None
  }

  /** Reads one name, as text, starting at offset `pos`, with the offset just past it. */
  function DecodeName(data: seq<byte>, pos: nat): (r: Option<(string, nat)>)
    requires pos <= |data|
    ensures r.Some? ==> pos < r.value.1 <= |data|
  {
    var labels := DecodeLabels(data, pos);
    if labels.None? then None else Some((NameOf(LabelTexts(labels.value.0)), labels.value.1))
  }

  /** Every name whose labels can be carried survives encoding and decoding, wherever it stands. */
  lemma DecodeEncodeName(name: string, data: seq<byte>, pos: nat)
    requires EncodeName(name).Some?
    requires pos + |EncodeName(name).value| <= |data|
    requires data[pos..pos + |EncodeName(name).value|] == EncodeName(name).value
    ensures DecodeName(data, pos) == Some((name, pos + |EncodeName(name).value|))
  {
    var labels := Labels(name);
    DecodeEncodeLabels(LabelOctets(labels), data, pos);
    LabelTextsOctets(labels);
    NameOfLabels(name);
  }
}
