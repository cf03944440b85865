/**
  Names with compression pointers (section 4.1.4 of RFC 1035): what dns_parse_name reads from the bytes
  of a packet in which a name lies in pieces.
 */
module DnsCompression {
  import opened CTypes
  import opened DnsNames
  import opened DnsCodec
  import opened DnsParser

  /** At c lie the two bytes of a pointer to t. */
  ghost predicate PointerAt(p: seq<Byte>, c: nat, t: nat) {
    t < 0x4000 && c + 1 < |p| && p[c] == 0xC0 + t / 256 && p[c + 1] == t % 256
  }

  /** At c lies a label, behind its length. */
  ghost predicate LabelAt(p: seq<Byte>, c: nat, part: Label) {
    1 <= |part| < 0xC0 && c + 1 + |part| <= |p| && p[c] == |part| && p[c + 1..c + 1 + |part|] == part
  }

  /**
    From c on the packet holds these labels and a root label in as many pieces as there are hops, and
    one more: where a piece ends, a pointer leads to the start of the next.
   */
  ghost predicate LaidOut(p: seq<Byte>, c: nat, labels: seq<Label>, hops: seq<nat>)
    decreases |labels| + |hops|
  {
    || (labels == [] && hops == [] && c < |p| && p[c] == 0)
    || (labels != [] && LabelAt(p, c, labels[0]) && LaidOut(p, c + 1 + |labels[0]|, labels[1..], hops))
    || (hops != [] && hops[0] < |p| && PointerAt(p, c, hops[0]) && LaidOut(p, hops[0], labels, hops[1..]))
  }

  lemma PointerLeads(p: seq<Byte>, c: nat, t: nat)
    requires PointerAt(p, c, t)
    ensures IsPointer(p[c]) && p[c] != 0 && Target(p, c) == t
  {
    var q := t / 256;
    assert q < 0x40 && (0xC0 + q) % 0x40 == q;
    assert t == q * 256 + t % 256;
  }

  lemma {:induction false} DecodeLaidOut(p: seq<Byte>, c: nat, labels: seq<Label>, hops: seq<nat>, fuel: nat)
    requires LaidOut(p, c, labels, hops) && fuel > |labels| + |hops|
    ensures Decode(p, c, fuel) == Labels(labels)
    ensures StopsAt(p, c, fuel) < |p|
    ensures FirstJump(p, c, fuel).Some? <==> hops != []
    decreases |labels| + |hops|
  {
    hide Target, IsPointer;
    if labels == [] && hops == [] && c < |p| && p[c] == 0 {
    } else if labels != [] && LabelAt(p, c, labels[0]) && LaidOut(p, c + 1 + |labels[0]|, labels[1..], hops) {
      LengthIsNoPointer(p[c]);
      DecodeLaidOut(p, c + 1 + |labels[0]|, labels[1..], hops, fuel - 1);
      assert [labels[0]] + labels[1..] == labels;
    } else {
      PointerLeads(p, c, hops[0]);
      DecodeLaidOut(p, hops[0], labels, hops[1..], fuel - 1);
    }
  }

  lemma LengthIsNoPointer(b: Byte)
    ensures b < 0xC0 ==> !IsPointer(b)
  {
  }

  /**
    dns_parse_name gives the name whose labels lie there, whatever the number of pointers between them and
    wherever in the packet they lead, if it fits the buffer; the position stays if there is a pointer.
   */
  lemma CompressedNameParses(p: seq<Byte>, pos: nat, labels: seq<Label>, hops: seq<nat>, nameLen: nat, fuel: nat)
    requires LaidOut(p, pos, labels, hops) && fuel > |labels| + |hops|
    requires |Join(labels)| < nameLen && (labels != [] ==> |labels[0]| + 1 < nameLen)
    ensures var r := Parse(p, nameLen, pos, Start(pos), fuel);
            r.Done? && r.name == Join(labels) && (hops != [] ==> r.pos == pos)
  {
    DecodeLaidOut(p, pos, labels, hops, fuel);
    ParseRefinesDecode(p, nameLen, pos, fuel);
    PositionAfterName(p, nameLen, pos, Start(pos), fuel);
  }

  /** Labels in their wire form from c on, with the rest of the name behind them. */
  lemma {:induction false} WireIsLaidOut(p: seq<Byte>, c: nat, first: seq<Label>, rest: seq<Label>, hops: seq<nat>)
    requires AllShort(first) && (forall i :: 0 <= i < |first| ==> first[i] != [])
    requires c + |Wire(first)| <= |p| && p[c..c + |Wire(first)|] == Wire(first)
    requires LaidOut(p, c + |Wire(first)|, rest, hops)
    ensures LaidOut(p, c, first + rest, hops)
    decreases |first|
  {
    hide LaidOut, LabelAt, Wire;
    if first == [] {
      NothingEncoded();
      assert first + rest == rest;
    } else {
      var n := |first[0]|;
      WireHead(p, c, first);
      WireIsLaidOut(p, c + 1 + n, first[1..], rest, hops);
      LabelThenRest(p, c, first[0], first[1..] + rest, hops);
      assert [first[0]] + (first[1..] + rest) == first + rest;
    }
  }

  lemma LabelThenRest(p: seq<Byte>, c: nat, part: Label, labels: seq<Label>, hops: seq<nat>)
    requires LabelAt(p, c, part) && LaidOut(p, c + 1 + |part|, labels, hops)
    ensures LaidOut(p, c, [part] + labels, hops)
  {
    assert ([part] + labels)[1..] == labels;
  }

  lemma WireHead(p: seq<Byte>, c: nat, labels: seq<Label>)
    requires AllShort(labels) && labels != [] && labels[0] != []
    requires c + |Wire(labels)| <= |p| && p[c..c + |Wire(labels)|] == Wire(labels)
    ensures var n := |labels[0]|;
            && LabelAt(p, c, labels[0]) && |Wire(labels)| == 1 + n + |Wire(labels[1..])|
            && p[c + 1 + n..c + 1 + n + |Wire(labels[1..])|] == Wire(labels[1..])
  {
    hide Wire, LabelAt;
    WireOfFirst(labels);
    ThreeParts(p, c, [|labels[0]|], labels[0], Wire(labels[1..]));
    LabelInParts(p, c, labels[0]);
  }

  lemma WireOfFirst(labels: seq<Label>)
    requires AllShort(labels) && labels != []
    ensures Wire(labels) == [|labels[0]|] + labels[0] + Wire(labels[1..])
    ensures |Wire(labels)| == 1 + |labels[0]| + |Wire(labels[1..])|
  {
  }

  lemma LabelInParts(p: seq<Byte>, c: nat, part: Label)
    requires 1 <= |part| <= 63 && c + 1 + |part| <= |p|
    requires p[c..c + 1] == [|part|] && p[c + 1..c + 1 + |part|] == part
    ensures LabelAt(p, c, part)
  {
    assert p[c] == p[c..c + 1][0];
  }

  lemma ThreeParts(p: seq<Byte>, c: nat, a: seq<Byte>, b: seq<Byte>, d: seq<Byte>)
    requires c + |a + b + d| <= |p| && p[c..c + |a + b + d|] == a + b + d
    ensures p[c..c + |a|] == a && p[c + |a|..c + |a| + |b|] == b
    ensures p[c + |a| + |b|..c + |a| + |b| + |d|] == d
  {
    Parts(p, c, a + b, d);
    Parts(p, c, a, b);
  }

  lemma Parts(p: seq<Byte>, c: nat, a: seq<Byte>, b: seq<Byte>)
    requires c + |a + b| <= |p|
    ensures p[c..c + |a + b|] == a + b <==> p[c..c + |a|] == a && p[c + |a|..c + |a| + |b|] == b
  {
    assert p[c..c + |a + b|] == p[c..c + |a|] + p[c + |a|..c + |a| + |b|];
    if p[c..c + |a + b|] == a + b {
      assert p[c..c + |a|] == (a + b)[..|a|] && p[c + |a|..c + |a| + |b|] == (a + b)[|a|..];
    }
  }

  /**
    A hostname whose first labels lie at pos in their wire form, then a pointer to any t of the packet, where
    the other labels and the root label lie, is parsed back in full.
   */
  lemma CompressedHostnameRoundTrip(name: seq<Byte>, k: nat, p: seq<Byte>, pos: nat, t: nat, fuel: nat)
    requires ValidHostname(name) && k <= |Split(name)| && fuel > |name| + 1
    requires (HostnameEncodes(name);
              var w, v := Wire(Split(name)[..k]), Wire(Split(name)[k..]) + [0];
              && pos + |w| + 2 <= |p| && p[pos..pos + |w|] == w
              && t < 0x4000 && p[pos + |w|] == 0xC0 + t / 256 && p[pos + |w| + 1] == t % 256
              && t + |v| <= |p| && p[t..t + |v|] == v)
    ensures Parse(p, 256, pos, Start(pos), fuel) == Done(name, pos)
  {
    hide ValidHostname, Split, Wire, LaidOut, Parse;
    var labels := Split(name);
    HostnameEncodes(name);
    JoinSplit(name);
    EndIsLaidOut(p, t, labels[k..]);
    PointerThenRest(p, pos + |Wire(labels[..k])|, t, labels[k..]);
    WireIsLaidOut(p, pos, labels[..k], labels[k..], [t]);
    assert labels[..k] + labels[k..] == labels;
    NamesAreShort(name);
    CompressedNameParses(p, pos, labels, [t], 256, fuel);
  }

  lemma NamesAreShort(name: seq<Byte>)
    requires ValidHostname(name)
    ensures |name| <= 253 && forall i :: 0 <= i < |Split(name)| ==> |Split(name)[i]| <= 63
  {
    hide Split;
    forall i | 0 <= i < |Split(name)| ensures |Split(name)[i]| <= 63 {
      assert ValidLabel(Split(name)[i]);
    }
  }

  lemma EndIsLaidOut(p: seq<Byte>, t: nat, labels: seq<Label>)
    requires AllShort(labels) && forall i :: 0 <= i < |labels| ==> labels[i] != []
    requires var v := Wire(labels) + [0]; t + |v| <= |p| && p[t..t + |v|] == v
    ensures LaidOut(p, t, labels, [])
  {
    hide Wire;
    Parts(p, t, Wire(labels), [0]);
    var e := t + |Wire(labels)|;
    assert p[e] == p[e..e + 1][0] == 0;
    assert LaidOut(p, e, [], []);
    WireIsLaidOut(p, t, labels, [], []);
    assert labels + [] == labels;
  }

  lemma PointerThenRest(p: seq<Byte>, c: nat, t: nat, labels: seq<Label>)
    requires t < |p| && PointerAt(p, c, t) && LaidOut(p, t, labels, [])
    ensures LaidOut(p, c, labels, [t])
  {
    assert [t][1..] == [];
  }

  /** A name may also end with the packet, without a root label; the position then stays. */
  lemma NameMayEndThePacket(name: seq<Byte>, fuel: nat)
    requires ValidHostname(name) && fuel > |name|
    ensures (HostnameEncodes(name); Parse(Wire(Split(name)), 256, 0, Start(0), fuel) == Done(name, 0))
  {
    var labels := Split(name);
    HostnameEncodes(name);
    JoinSplit(name);
    var p := Wire(labels);
    DecodeToTheEnd(p, 0, labels, fuel);
    ParseRefinesDecode(p, 256, 0, fuel);
    PositionAfterName(p, 256, 0, Start(0), fuel);
  }

  lemma {:induction false} DecodeToTheEnd(p: seq<Byte>, c: nat, labels: seq<Label>, fuel: nat)
    requires AllShort(labels) && (forall i :: 0 <= i < |labels| ==> labels[i] != []) && fuel > |labels|
    requires c + |Wire(labels)| == |p| && p[c..] == Wire(labels)
    ensures Decode(p, c, fuel) == Labels(labels) && StopsAt(p, c, fuel) == |p| && FirstJump(p, c, fuel) == None
    decreases |labels|
  {
    if labels != [] {
      assert p[c..] == p[c..c + |Wire(labels)|];
      WireHead(p, c, labels);
      LengthIsNoPointer(p[c]);
      var n := c + 1 + |labels[0]|;
      assert p[n..] == p[n..n + |Wire(labels[1..])|];
      DecodeToTheEnd(p, n, labels[1..], fuel - 1);
      assert [labels[0]] + labels[1..] == labels;
    }
  }
}
