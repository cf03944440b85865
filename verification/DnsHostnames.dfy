/**
  What dns_is_valid_hostname of net/dns_utils.c accepts, said of the characters alone: no labels, no scan.
 */
module DnsHostnames {
  import opened CTypes
  import opened DnsNames
  import opened DnsCodec

  predicate IsNameChar(c: Byte) {
    var x := c as char;
    'a' <= x <= 'z' || 'A' <= x <= 'Z' || '0' <= x <= '9' || x == '-' || x == '.'
  }

  predicate IsDot(c: Byte) {
    c as char == '.'
  }

  /** Some dot among the 64 characters from i on. */
  predicate DotSoon(name: seq<Byte>, i: nat)
    requires i + 64 <= |name|
  {
    exists j :: i <= j < i + 64 && IsDot(name[j])
  }

  /** Letters, digits, hyphens and single dots, no dot at either end, and one among any 64 characters. */
  predicate Plain(name: seq<Byte>) {
    && name != [] && !IsDot(name[0]) && !IsDot(name[|name| - 1])
    && (forall i :: 0 <= i < |name| ==> IsNameChar(name[i]))
    && (forall i :: 0 < i < |name| ==> !IsDot(name[i - 1]) || !IsDot(name[i]))
    && (forall i: nat :: i + 64 <= |name| ==> DotSoon(name, i))
  }

  lemma LdhIffNameChar(c: Byte)
    ensures IsNameChar(c) <==> IsLdh(c) || IsDot(c)
    ensures IsDot(c) <==> c == DOT
    ensures IsLdh(c) ==> !IsDot(c)
  {
  }

  lemma AllCharsFit(part: Label)
    ensures (forall c :: c in part ==> IsLdh(c)) <==> (forall i :: 0 <= i < |part| ==> IsLdh(part[i]))
  {
  }

  lemma LongIsNotPlain(name: seq<Byte>, k: nat)
    requires 64 <= k <= |name| && forall i :: 0 <= i < k ==> name[i] != DOT
    ensures !Plain(name)
  {
    hide IsNameChar;
    assert !DotSoon(name, 0);
  }

  lemma PlainLabelIff(part: Label)
    requires forall i :: 0 <= i < |part| ==> part[i] != DOT
    ensures Plain(part) <==> ValidLabel(part)
  {
    hide IsLdh, IsNameChar, IsDot;
    forall c: Byte {
      LdhIffNameChar(c);
    }
    AllCharsFit(part);
    if |part| > 63 {
      LongIsNotPlain(part, |part|);
    }
  }

  lemma PlainSplits(name: seq<Byte>, k: nat)
    requires k < |name| && name[k] == DOT && forall i :: 0 <= i < k ==> name[i] != DOT
    ensures Plain(name) <==> Plain(name[..k]) && Plain(name[k + 1..])
  {
    hide IsLdh, IsNameChar, DotSoon;
    forall c: Byte {
      LdhIffNameChar(c);
    }
    var part, rest := name[..k], name[k + 1..];
    if Plain(name) {
      PartIsPlain(name, k);
      RestIsPlain(name, k);
    }
    if Plain(part) && Plain(rest) {
      JoinedIsPlain(name, k);
    }
  }

  lemma PartIsPlain(name: seq<Byte>, k: nat)
    requires k < |name| && name[k] == DOT && forall i :: 0 <= i < k ==> name[i] != DOT
    requires Plain(name)
    ensures Plain(name[..k])
  {
    hide IsNameChar;
    if k >= 64 {
      LongIsNotPlain(name, k);
    }
  }

  lemma RestIsPlain(name: seq<Byte>, k: nat)
    requires k < |name| && name[k] == DOT && Plain(name)
    ensures Plain(name[k + 1..])
  {
    hide IsNameChar;
    var rest := name[k + 1..];
    assert IsDot(name[k]) && k + 1 < |name|;
    forall i: nat | i + 64 <= |rest| ensures DotSoon(rest, i) {
      assert DotSoon(name, k + 1 + i);
      var j :| k + 1 + i <= j < k + 1 + i + 64 && IsDot(name[j]);
      assert IsDot(rest[j - (k + 1)]);
    }
    forall i | 0 < i < |rest| ensures !IsDot(rest[i - 1]) || !IsDot(rest[i]) {
      assert !IsDot(name[k + i]) || !IsDot(name[k + 1 + i]);
    }
  }

  lemma JoinedIsPlain(name: seq<Byte>, k: nat)
    requires k < |name| && name[k] == DOT && forall i :: 0 <= i < k ==> name[i] != DOT
    requires Plain(name[..k]) && Plain(name[k + 1..])
    ensures Plain(name)
  {
    hide IsNameChar;
    var part, rest := name[..k], name[k + 1..];
    if k >= 64 {
      LongIsNotPlain(part, k);
    }
    forall i: nat | i + 64 <= |name| ensures DotSoon(name, i) {
      if i <= k {
        assert IsDot(name[k]);
      } else {
        assert DotSoon(rest, i - (k + 1));
        var j :| i - (k + 1) <= j < i - (k + 1) + 64 && IsDot(rest[j]);
        assert IsDot(name[j + (k + 1)]);
      }
    }
    forall i | 0 <= i < |name| ensures IsNameChar(name[i]) {
      NameCharAt(name, k, i);
    }
    forall i | 0 < i < |name| ensures !IsDot(name[i - 1]) || !IsDot(name[i]) {
      if i > k + 1 {
        assert !IsDot(rest[i - k - 2]) || !IsDot(rest[i - k - 1]);
      } else if i == k + 1 {
        assert rest[0] == name[i];
      }
    }
  }

  lemma NameCharAt(name: seq<Byte>, k: nat, i: nat)
    requires k < |name| && name[k] == DOT && i < |name|
    requires Plain(name[..k]) && Plain(name[k + 1..])
    ensures IsNameChar(name[i])
  {
    if i < k {
      assert IsNameChar(name[..k][i]);
    } else if i > k {
      assert IsNameChar(name[k + 1..][i - k - 1]);
    }
  }

  lemma {:induction false} PlainIffLabels(name: seq<Byte>)
    ensures Plain(name) <==> AllValid(Split(name))
    decreases |name|
  {
    hide Plain, Split, ValidLabel, LabelEnd;
    SplitAtLabelEnd(name);
    var k := LabelEnd(name);
    if k == |name| {
      PlainLabelIff(name);
      AllValidCons(Split(name));
    } else {
      PlainSplits(name, k);
      NoDotInFront(name, k);
      PlainLabelIff(name[..k]);
      PlainIffLabels(name[k + 1..]);
      AllValidCons([name[..k]] + Split(name[k + 1..]));
    }
  }

  lemma NoDotInFront(name: seq<Byte>, k: nat)
    requires k <= |name| && forall i :: 0 <= i < k ==> name[i] != DOT
    ensures forall i :: 0 <= i < k ==> name[..k][i] != DOT
  {
  }

  /** A name is accepted if and only if it is plain and has at most 253 characters. */
  lemma ValidHostnameIff(name: seq<Byte>)
    ensures ValidHostname(name) <==> |name| <= 253 && Plain(name)
  {
    PlainIffLabels(name);
  }
}
