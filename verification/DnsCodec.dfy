/**
  dns_encode_name of net/dns.c: the labels it takes from a name, and the bytes it writes for them.
 */
module DnsCodec {
  import opened CTypes
  import opened CString
  import opened DnsNames

  // ---------------------------------------------------------------------------
  // Encoding
  // ---------------------------------------------------------------------------

  /** Where the first label ends: at the first dot, or at the end of the name. */
  function LabelEnd(name: seq<Byte>): (k: nat)
    ensures k <= |name|
    ensures k < |name| ==> name[k] == DOT
    ensures forall i :: 0 <= i < k ==> name[i] != DOT
  {
    if name == [] || name[0] == DOT then 0 else 1 + LabelEnd(name[1..])
  }

  /** The labels the encoder writes: all of them, but for an empty one at the very end. */
  function EncodedLabels(name: seq<Byte>): seq<Label> {
    if name == [] then []
    else
      var k := LabelEnd(name);
      if k == |name| then [name] else [name[..k]] + EncodedLabels(name[k + 1..])
  }

  predicate AllShort(labels: seq<Label>) {
    forall i :: 0 <= i < |labels| ==> |labels[i]| <= 63
  }

  /** Each label behind its length. */
  function Wire(labels: seq<Label>): seq<Byte>
    requires AllShort(labels)
  {
    if labels == [] then [] else [|labels[0]|] + labels[0] + Wire(labels[1..])
  }

  lemma {:induction false} SplitAtLabelEnd(name: seq<Byte>)
    ensures var k := LabelEnd(name);
            if k == |name| then Split(name) == [name]
            else Split(name) == [name[..k]] + Split(name[k + 1..])
  {
    if name != [] && name[0] != DOT {
      SplitAtLabelEnd(name[1..]);
      var k := LabelEnd(name);
      assert name == [name[0]] + name[1..];
      if k < |name| {
        assert name[1..][k..] == name[k + 1..];
        assert [name[0]] + name[1..][..k - 1] == name[..k];
      }
    }
  }

  function WithoutEmptyEnd(labels: seq<Label>): seq<Label>
    requires labels != []
  {
    if labels[|labels| - 1] == [] then labels[..|labels| - 1] else labels
  }

  /** Unless the name ends in a dot (or is empty) the encoder writes exactly its labels. */
  lemma {:induction false} EncodedAreSplit(name: seq<Byte>)
    ensures EncodedLabels(name) == WithoutEmptyEnd(Split(name))
    decreases |name|
  {
    hide Split, LabelEnd, EncodedLabels, WithoutEmptyEnd;
    if name == [] {
      NothingToSplit();
    } else {
      FirstEncoded(name);
      SplitAtLabelEnd(name);
      var k := LabelEnd(name);
      if k < |name| {
        EncodedAreSplit(name[k + 1..]);
        OneBefore(name[..k], Split(name[k + 1..]));
      } else {
        AllButEmpty(name);
      }
    }
  }

  lemma NothingToSplit()
    ensures EncodedLabels([]) == WithoutEmptyEnd(Split([]))
  {
  }

  lemma AllButEmpty(part: Label)
    requires part != []
    ensures WithoutEmptyEnd([part]) == [part]
  {
  }

  lemma OneBefore(part: Label, labels: seq<Label>)
    requires labels != []
    ensures WithoutEmptyEnd([part] + labels) == [part] + WithoutEmptyEnd(labels)
  {
  }

  lemma {:induction false} WireAppend(labels: seq<Label>, part: Label)
    requires AllShort(labels) && |part| <= 63
    ensures AllShort(labels + [part]) && Wire(labels + [part]) == Wire(labels) + [|part|] + part
  {
    if labels == [] {
      assert labels + [part] == [part];
    } else {
      WireAppend(labels[1..], part);
      assert (labels + [part])[1..] == labels[1..] + [part];
    }
  }

  lemma EncodedAt(name: seq<Byte>, start: nat, dot: nat)
    requires start < |name| && start <= dot <= |name|
    requires (forall i :: start <= i < dot ==> name[i] != DOT) && (dot < |name| ==> name[dot] == DOT)
    ensures EncodedLabels(name[start..]) ==
            [name[start..dot]] + if dot == |name| then [] else EncodedLabels(name[dot + 1..])
  {
    hide LabelEnd;
    var rest := name[start..];
    FirstLabelEnds(name, start, dot);
    if dot < |name| {
      FirstEncoded(rest);
      assert rest[dot - start + 1..] == name[dot + 1..];
      assert rest[..dot - start] == name[start..dot];
    } else {
      assert rest == name[start..dot];
      assert [rest] + [] == [rest];
    }
  }

  lemma FirstLabelEnds(name: seq<Byte>, start: nat, dot: nat)
    requires start < |name| && start <= dot <= |name|
    requires (forall i :: start <= i < dot ==> name[i] != DOT) && (dot < |name| ==> name[dot] == DOT)
    ensures LabelEnd(name[start..]) == dot - start
  {
    var rest := name[start..];
    assert forall i :: 0 <= i < dot - start ==> rest[i] == name[start + i];
    assert dot < |name| ==> rest[dot - start] == DOT;
  }

  lemma FirstEncoded(name: seq<Byte>)
    requires name != []
    ensures var k := LabelEnd(name);
            EncodedLabels(name) == if k == |name| then [name] else [name[..k]] + EncodedLabels(name[k + 1..])
  {
    hide LabelEnd;
  }

  /** One turn of the encoding loop: the length byte and the bytes of the label. */
  method PutLabel(hostname: seq<Byte>, start: nat, labelLen: nat, buffer: array<Byte>, pos: nat) returns (pos': nat)
    requires labelLen <= 63 && start + labelLen <= |hostname| && pos + 1 + labelLen <= buffer.Length
    modifies buffer
    ensures pos' == pos + 1 + labelLen
    ensures buffer[..pos'] == old(buffer[..pos]) + [labelLen] + hostname[start..start + labelLen]
    ensures forall k :: pos' <= k < buffer.Length ==> buffer[k] == old(buffer[k])
  {
    buffer[pos] := labelLen;
    Memcpy(buffer, pos + 1, hostname, start, labelLen);
    return pos + 1 + labelLen;
  }

  method EncodeName(hostname: seq<Byte>, buffer: array<Byte>) returns (r: int, len: nat)
    requires |hostname| + 2 <= buffer.Length
    modifies buffer
    ensures r == if AllShort(EncodedLabels(hostname)) then 0 else -1
    ensures r == 0 ==>
      && len <= |hostname| + 2
      && buffer[..len] == Wire(EncodedLabels(hostname)) + [0]
      && forall k :: len <= k < buffer.Length ==> buffer[k] == old(buffer[k])
  {
    hide EncodedLabels, Wire;
    NothingEncoded();
    var pos, start, dot := 0, 0, 0;
    ghost var done: seq<Label> := [];
    assert hostname[0..] == hostname;
    while dot < |hostname|
      invariant start == dot <= |hostname| && pos == start
      invariant AllShort(done) && done + EncodedLabels(hostname[start..]) == EncodedLabels(hostname)
      invariant buffer[..pos] == Wire(done) && forall k :: pos <= k < buffer.Length ==> buffer[k] == old(buffer[k])
      invariant dot == |hostname| ==> done == EncodedLabels(hostname)
      decreases |hostname| - dot
    {
      while dot < |hostname| && hostname[dot] != DOT
        invariant start <= dot <= |hostname|
        invariant forall i :: start <= i < dot ==> hostname[i] != DOT
      {
        dot := dot + 1;
      }
      EncodedAt(hostname, start, dot);
      var labelLen := dot - start;
      ghost var part := hostname[start..dot];
      assert EncodedLabels(hostname)[|done|] == part;
      if labelLen > 63 {
        return -1, 0;
      }
      WireAppend(done, part);
      pos := PutLabel(hostname, start, labelLen, buffer, pos);
      assert hostname[start..start + labelLen] == part;
      ghost var rest := if dot == |hostname| then [] else EncodedLabels(hostname[dot + 1..]);
      assert done + ([part] + rest) == (done + [part]) + rest;
      done := done + [part];
      if dot < |hostname| && hostname[dot] == DOT {
        dot := dot + 1;
        start := dot;
        assert dot == |hostname| ==> hostname[dot..] == [];
      } else {
        break;
      }
    }
    assert done == EncodedLabels(hostname);
    buffer[pos] := 0;
    return 0, pos + 1;
  }

  lemma EmptyEndIsShort(labels: seq<Label>)
    requires labels != []
    ensures AllShort(WithoutEmptyEnd(labels)) <==> forall i :: 0 <= i < |labels| ==> |labels[i]| <= 63
  {
    var n := |labels| - 1;
    assert labels[n] == [] ==> forall i :: 0 <= i < n ==> WithoutEmptyEnd(labels)[i] == labels[i];
  }

  /** Encoding succeeds if and only if no part between two dots has more than 63 bytes. */
  lemma EncodesIff(name: seq<Byte>)
    ensures AllShort(EncodedLabels(name)) <==> forall i :: 0 <= i < |Split(name)| ==> |Split(name)[i]| <= 63
  {
    hide Split;
    EncodedAreSplit(name);
    EmptyEndIsShort(Split(name));
  }

  lemma NothingEncoded()
    ensures EncodedLabels([]) == [] && Wire([]) == []
  {
  }
}
