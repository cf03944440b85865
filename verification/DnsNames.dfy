/**
  Domain names and their labels, and the hostname check of net/dns_utils.c. A name is the bytes of
  a C string without its terminating zero.
 */
module DnsNames {
  import opened CTypes

  const DOT: Byte := 46

  type Label = seq<Byte>

  // ---------------------------------------------------------------------------
  // Dotted names and their labels
  // ---------------------------------------------------------------------------

  function Split(name: seq<Byte>): (labels: seq<Label>)
    ensures |labels| > 0
  {
    if name == [] then [[]]
    else if name[0] == DOT then [[]] + Split(name[1..])
    else
      var rest := Split(name[1..]);
      [[name[0]] + rest[0]] + rest[1..]
  }

  function Join(labels: seq<Label>): seq<Byte> {
    if labels == [] then []
    else if |labels| == 1 then labels[0]
    else labels[0] + [DOT] + Join(labels[1..])
  }

  lemma {:induction false} JoinSplit(name: seq<Byte>)
    ensures Join(Split(name)) == name
  {
    if name != [] {
      JoinSplit(name[1..]);
      var rest := Split(name[1..]);
      assert name == [name[0]] + name[1..];
      if name[0] == DOT {
        assert Split(name)[1..] == rest;
      } else {
        assert Split(name)[1..] == rest[1..];
        assert [name[0]] + (rest[0] + [DOT] + Join(rest[1..])) == ([name[0]] + rest[0]) + [DOT] + Join(rest[1..]);
      }
    }
  }

  /** Adding a label at the end, as the decoder builds a name. */
  function Extended(name: seq<Byte>, part: Label): seq<Byte> {
    name + (if |name| > 0 then [DOT] else []) + part
  }

  lemma {:induction false} JoinSnoc(labels: seq<Label>, part: Label)
    requires forall i :: 0 <= i < |labels| ==> labels[i] != []
    ensures Join(labels + [part]) == Extended(Join(labels), part)
    ensures labels != [] ==> Join(labels) != []
  {
    if |labels| <= 1 {
      if |labels| == 1 {
        assert (labels + [part])[1..] == [part];
      } else {
        assert labels + [part] == [part];
      }
    } else {
      JoinSnoc(labels[1..], part);
      assert (labels + [part])[1..] == labels[1..] + [part];
      assert labels[0] + [DOT] + Extended(Join(labels[1..]), part)
          == Extended(labels[0] + [DOT] + Join(labels[1..]), part);
    }
  }

  // ---------------------------------------------------------------------------
  // dns_is_valid_hostname
  // ---------------------------------------------------------------------------

  predicate IsLdh(c: Byte) {
    97 <= c <= 122 || 65 <= c <= 90 || 48 <= c <= 57 || c == 45
  }

  predicate ValidLabel(part: Label) {
    1 <= |part| <= 63 && forall c :: c in part ==> IsLdh(c)
  }

  predicate AllValid(labels: seq<Label>) {
    forall i :: 0 <= i < |labels| ==> ValidLabel(labels[i])
  }

  lemma AllValidCons(labels: seq<Label>)
    requires labels != []
    ensures AllValid(labels) <==> ValidLabel(labels[0]) && AllValid(labels[1..])
  {
    assert forall i :: 1 <= i < |labels| ==> labels[i] == labels[1..][i - 1];
  }

  /** Letters, digits and hyphens in dot-separated labels of 1 to 63 characters, 253 characters in all. */
  predicate ValidHostname(name: seq<Byte>) {
    1 <= |name| <= 253 && AllValid(Split(name))
  }

  /** What the scanning loop still has to see: the rest of the current label, and the labels after it. */
  predicate RestValid(len: nat, rest: seq<Byte>) {
    var labels := Split(rest);
    && 1 <= len + |labels[0]| <= 63 && (forall c :: c in labels[0] ==> IsLdh(c))
    && AllValid(labels[1..])
  }

  lemma RestValidStep(len: nat, rest: seq<Byte>)
    requires rest != []
    ensures rest[0] == DOT ==> (RestValid(len, rest) <==> 1 <= len <= 63 && RestValid(0, rest[1..]))
    ensures rest[0] != DOT ==> (RestValid(len, rest) <==> IsLdh(rest[0]) && RestValid(len + 1, rest[1..]))
  {
    var labels, after := Split(rest), Split(rest[1..]);
    if rest[0] == DOT {
      assert labels[0] == [] && labels[1..] == after;
      AllValidCons(after);
    } else {
      assert labels[0] == [rest[0]] + after[0] && labels[1..] == after[1..];
      assert rest[0] in labels[0];
      assert forall c :: c in labels[0] <==> c == rest[0] || c in after[0];
    }
  }

  lemma WholeRestValid(name: seq<Byte>)
    ensures RestValid(0, name) <==> AllValid(Split(name))
  {
    AllValidCons(Split(name));
  }

  lemma DotAtEnd(name: seq<Byte>)
    requires name != [] && (name[0] == DOT || name[|name| - 1] == DOT)
    ensures !AllValid(Split(name))
  {
    var labels := Split(name);
    LastLabel(name);
    assert !ValidLabel(labels[0]) || !ValidLabel(labels[|labels| - 1]);
  }

  lemma {:induction false} LastLabel(name: seq<Byte>)
    ensures var labels := Split(name);
            name != [] && name[|name| - 1] == DOT ==> labels[|labels| - 1] == []
  {
    if |name| > 1 {
      LastLabel(name[1..]);
      if |Split(name[1..])| == 1 {
        OneLabel(name[1..]);
      }
    }
  }

  lemma {:induction false} OneLabel(name: seq<Byte>)
    requires |Split(name)| == 1
    ensures Split(name) == [name] && forall i :: 0 <= i < |name| ==> name[i] != DOT
  {
    if name != [] {
      OneLabel(name[1..]);
      assert name == [name[0]] + name[1..];
    }
  }

  method IsValidHostname(hostname: seq<Byte>) returns (valid: bool)
    ensures valid <==> ValidHostname(hostname)
  {
    hide RestValid, Split, AllValid, IsLdh;
    var len := |hostname|;
    if len == 0 || len > 253 {
      return false;
    }
    if hostname[0] == DOT || hostname[len - 1] == DOT {
      DotAtEnd(hostname);
      return false;
    }
    WholeRestValid(hostname);
    var ptr, labelLen := 0, 0;
    while ptr < len
      invariant ptr <= len && labelLen <= 63
      invariant RestValid(labelLen, hostname[ptr..]) <==> AllValid(Split(hostname))
    {
      RestValidStep(labelLen, hostname[ptr..]);
      assert hostname[ptr..][1..] == hostname[ptr + 1..];
      if hostname[ptr] == DOT {
        if labelLen == 0 || labelLen > 63 {
          return false;
        }
        labelLen := 0;
      } else if IsLdh(hostname[ptr]) {
        labelLen := labelLen + 1;
        if labelLen > 63 {
          TooLong(labelLen, hostname[ptr + 1..]);
          return false;
        }
      } else {
        return false;
      }
      ptr := ptr + 1;
    }
    NothingLeft(labelLen);
    assert hostname[ptr..] == [];
    return labelLen > 0 && labelLen <= 63;
  }

  lemma TooLong(len: nat, rest: seq<Byte>)
    requires len > 63
    ensures !RestValid(len, rest)
  {
  }

  lemma NothingLeft(len: nat)
    ensures RestValid(len, []) <==> 1 <= len <= 63
  {
  }
}
