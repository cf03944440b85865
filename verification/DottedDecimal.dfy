/**
  dns_string_to_ip and dns_ip_to_string of net/dns_utils.c. Strings are the bytes of C strings.
 */
module DottedDecimal {
  import opened CTypes
  import opened CString
  import opened DnsNames

  const ZERO: Byte := 48

  predicate IsDigit(c: Byte) {
    48 <= c <= 57
  }

  predicate AllDigits(s: seq<Byte>) {
    forall i :: 0 <= i < |s| ==> IsDigit(s[i])
  }

  /** The number a string of digits denotes; the empty string denotes 0. */
  function Value(s: seq<Byte>): nat
    requires AllDigits(s)
  {
    if s == [] then 0 else Value(s[..|s| - 1]) * 10 + (s[|s| - 1] - ZERO)
  }

  /** Decimal digits, most significant first, as printed by %d. */
  function Decimal(n: nat): (s: seq<Byte>)
    ensures s != [] && AllDigits(s)
  {
    if n < 10 then [ZERO + n] else Decimal(n / 10) + [ZERO + n % 10]
  }

  lemma {:induction false} ValueOfDecimal(n: nat)
    ensures Value(Decimal(n)) == n
  {
    var s := Decimal(n);
    if n < 10 {
      assert s[..0] == [];
    } else {
      ValueOfDecimal(n / 10);
      assert s[..|s| - 1] == Decimal(n / 10);
    }
  }

  lemma {:induction false} SplitJoin(labels: seq<Label>)
    requires labels != [] && forall i :: 0 <= i < |labels| ==> DOT !in labels[i]
    ensures Split(Join(labels)) == labels
    decreases |labels|, |labels[0]|
  {
    var first := labels[0];
    if first == [] {
      if |labels| > 1 {
        SplitJoin(labels[1..]);
        assert Join(labels) == [DOT] + Join(labels[1..]);
        assert labels == [[]] + labels[1..];
      } else {
        assert labels == [[]];
      }
    } else {
      var shorter := [first[1..]] + labels[1..];
      assert forall i :: 1 <= i < |labels| ==> shorter[i] == labels[i];
      SplitJoin(shorter);
      assert first[0] in first;
      JoinLonger(first[0], shorter);
      assert [first[0]] + shorter[0] == first && shorter[1..] == labels[1..];
      assert [first] + labels[1..] == labels;
    }
  }

  /** A character put before the first label is put before the joined name, and split off again. */
  lemma JoinLonger(c: Byte, labels: seq<Label>)
    requires labels != [] && c != DOT && Split(Join(labels)) == labels
    ensures Split(Join([[c] + labels[0]] + labels[1..])) == [[c] + labels[0]] + labels[1..]
  {
    JoinOfLonger(c, labels);
    hide Join;
    var joined := [c] + Join(labels);
    assert joined[1..] == Join(labels);
  }

  lemma JoinOfLonger(c: Byte, labels: seq<Label>)
    requires labels != []
    ensures Join([[c] + labels[0]] + labels[1..]) == [c] + Join(labels)
  {
    var longer := [[c] + labels[0]] + labels[1..];
    assert longer[1..] == labels[1..];
    if |labels| > 1 {
      assert ([c] + labels[0]) + [DOT] + Join(labels[1..]) == [c] + (labels[0] + [DOT] + Join(labels[1..]));
    }
  }

  function IpToString(ip: Word32): seq<Byte> {
    var net := Swap32(ip);
    Join([Decimal(net / 0x100_0000), Decimal(net / 0x1_0000 % 256), Decimal(net / 256 % 256), Decimal(net % 256)])
  }

  /** Four fields of digits (possibly none), each of value at most 255. */
  predicate IsDotted(s: seq<Byte>) {
    var f := Split(s);
    |f| == 4 && forall i :: 0 <= i < 4 ==> AllDigits(f[i]) && Value(f[i]) <= 255
  }

  function StringToIpSpec(s: seq<Byte>): Word32 {
    if IsDotted(s) then
      var f := Split(s);
      Swap32(Packed(Value(f[0]), Value(f[1]), Value(f[2]), Value(f[3])))
    else 0
  }

  lemma ValueSnoc(s: seq<Byte>, c: Byte)
    requires AllDigits(s) && IsDigit(c)
    ensures AllDigits(s + [c]) && Value(s + [c]) == Value(s) * 10 + (c - ZERO)
  {
    assert (s + [c])[..|s|] == s;
  }

  /** What the scan has read: `done` fields, then `cur` of the field it is in, with `rest` to come. */
  ghost predicate Scanned(s: seq<Byte>, done: seq<Label>, cur: Label, rest: seq<Byte>) {
    var f := Split(rest);
    && Split(s) == done + [cur + f[0]] + f[1..]
    && (forall i :: 0 <= i < |done| ==> AllDigits(done[i])) && AllDigits(cur)
  }

  lemma ScanDot(s: seq<Byte>, done: seq<Label>, cur: Label, rest: seq<Byte>)
    requires Scanned(s, done, cur, rest) && rest != [] && rest[0] == DOT
    ensures Scanned(s, done + [cur], [], rest[1..])
  {
    var f, g := Split(rest), Split(rest[1..]);
    assert f == [[]] + g && f[1..] == g;
    assert g == [g[0]] + g[1..] && [] + g[0] == g[0] && cur + [] == cur;
    assert done + [cur] + g == done + [cur] + [[] + g[0]] + g[1..];
  }

  lemma ScanDigit(s: seq<Byte>, done: seq<Label>, cur: Label, rest: seq<Byte>)
    requires Scanned(s, done, cur, rest) && rest != [] && IsDigit(rest[0])
    ensures Scanned(s, done, cur + [rest[0]], rest[1..])
  {
    var f, g := Split(rest), Split(rest[1..]);
    assert f[0] == [rest[0]] + g[0] && f[1..] == g[1..];
    assert cur + f[0] == cur + [rest[0]] + g[0];
  }

  lemma ScanOther(s: seq<Byte>, done: seq<Label>, cur: Label, rest: seq<Byte>)
    requires Scanned(s, done, cur, rest) && rest != [] && rest[0] != DOT && !IsDigit(rest[0])
    ensures !IsDotted(s)
  {
    var f, g := Split(rest), Split(rest[1..]);
    assert f[0] == [rest[0]] + g[0];
    assert Split(s)[|done|] == cur + f[0] && (cur + f[0])[|cur|] == rest[0];
    assert !AllDigits(Split(s)[|done|]);
  }

  lemma ScanEnd(s: seq<Byte>, done: seq<Label>, cur: Label)
    requires Scanned(s, done, cur, [])
    ensures Split(s) == done + [cur]
  {
    assert cur + [] == cur && Split([])[1..] == [];
  }

  method StringToIp(ipStr: seq<Byte>) returns (ip: Word32)
    ensures ip == StringToIpSpec(ipStr)
  {
    hide Split, Scanned, Value, AllDigits, IsDotted;
    var parts := new nat[4](_ => 0);
    var part, ptr := 0, 0;
    ghost var done: seq<Label>, cur: Label := [], [];
    ScanStart(ipStr);
    assert ipStr[0..] == ipStr;
    while ptr < |ipStr| && part < 4
      invariant ptr <= |ipStr| && part == |done| <= 4
      invariant Scanned(ipStr, done, cur, ipStr[ptr..])
      invariant forall k :: 0 <= k < part ==> AllDigits(done[k]) && parts[k] == Value(done[k])
      invariant AllDigits(cur) && (part < 4 ==> parts[part] == Value(cur))
      invariant forall k :: part < k < 4 ==> parts[k] == 0
      decreases |ipStr| - ptr
    {
      ghost var rest := ipStr[ptr..];
      assert rest[0] == ipStr[ptr] && rest[1..] == ipStr[ptr + 1..];
      if ipStr[ptr] == DOT {
        ScanDot(ipStr, done, cur, rest);
        done, cur := done + [cur], [];
        NoDigits();
        part := part + 1;
        ptr := ptr + 1;
      } else if IsDigit(ipStr[ptr]) {
        ScanDigit(ipStr, done, cur, rest);
        ValueSnoc(cur, ipStr[ptr]);
        cur := cur + [ipStr[ptr]];
        parts[part] := parts[part] * 10 + (ipStr[ptr] - ZERO);
        ptr := ptr + 1;
      } else {
        ScanOther(ipStr, done, cur, rest);
        return 0;
      }
    }
    if part != 3 {
      FieldCount(ipStr, done, cur, ipStr[ptr..]);
      return 0;
    }
    assert ipStr[ptr..] == [];
    ScanEnd(ipStr, done, cur);
    for i := 0 to 4
      invariant forall k :: 0 <= k < i ==> parts[k] <= 255
    {
      if parts[i] > 255 {
        FieldTooLarge(ipStr, done + [cur], i);
        return 0;
      }
    }
    FieldsFit(ipStr, done + [cur]);
    return Swap32(Packed(parts[0], parts[1], parts[2], parts[3]));
  }

  lemma ScanStart(s: seq<Byte>)
    ensures Scanned(s, [], [], s) && AllDigits([]) && Value([]) == 0
  {
    var f := Split(s);
    assert f == [f[0]] + f[1..] && [] + f[0] == f[0];
  }

  lemma NoDigits()
    ensures AllDigits([]) && Value([]) == 0
  {
  }

  /** Unless exactly three dots were read to the end of the string, it is not an address. */
  lemma FieldCount(s: seq<Byte>, done: seq<Label>, cur: Label, rest: seq<Byte>)
    requires Scanned(s, done, cur, rest) && |done| != 3 && (rest == [] || |done| >= 4)
    ensures !IsDotted(s)
  {
    if rest == [] {
      ScanEnd(s, done, cur);
    }
  }

  lemma FieldTooLarge(s: seq<Byte>, f: seq<Label>, i: nat)
    requires Split(s) == f && i < |f| && AllDigits(f[i]) && Value(f[i]) > 255
    ensures !IsDotted(s)
  {
  }

  lemma FieldsFit(s: seq<Byte>, f: seq<Label>)
    requires Split(s) == f && |f| == 4 && forall i :: 0 <= i < 4 ==> AllDigits(f[i]) && Value(f[i]) <= 255
    ensures IsDotted(s)
  {
  }

  /** Parsing undoes printing, for every address. */
  lemma DottedRoundTrip(ip: Word32)
    ensures StringToIpSpec(IpToString(ip)) == ip
  {
    var net := Swap32(ip);
    var f := [Decimal(net / 0x100_0000), Decimal(net / 0x1_0000 % 256), Decimal(net / 256 % 256), Decimal(net % 256)];
    hide Swap32, Decimal, Split, Join;
    ValueOfDecimal(net / 0x100_0000);
    ValueOfDecimal(net / 0x1_0000 % 256);
    ValueOfDecimal(net / 256 % 256);
    ValueOfDecimal(net % 256);
    forall i | 0 <= i < 4 ensures DOT !in f[i] {
      DigitsHaveNoDot(f[i]);
    }
    SplitJoin(f);
    FourBytes(net);
    Swap32IsInvolution(ip);
  }

  lemma DigitsHaveNoDot(s: seq<Byte>)
    requires AllDigits(s)
    ensures DOT !in s
  {
  }

  lemma FourBytes(x: Word32)
    ensures Packed(x / 0x100_0000, x / 0x1_0000 % 256, x / 256 % 256, x % 256) == x
  {
    assert x / 256 == x / 0x1_0000 * 256 + x / 256 % 256;
  }

  /** The four fields of an address lie in memory in the order in which they are written. */
  lemma FieldsInMemory(s: seq<Byte>)
    requires IsDotted(s)
    ensures var ip, f := StringToIpSpec(s), Split(s);
            && ip % 0x100 == Value(f[0]) && ip / 0x100 % 0x100 == Value(f[1])
            && ip / 0x1_0000 % 0x100 == Value(f[2]) && ip / 0x100_0000 == Value(f[3])
  {
    hide Split, Value, AllDigits;
    var f := Split(s);
    var a, b, c, d := Value(f[0]), Value(f[1]), Value(f[2]), Value(f[3]);
    BytesOf(a, b, c, d);
    LongIsItsBytes(Packed(a, b, c, d));
    assert NetworkLong(Swap32(Packed(a, b, c, d))) == [d, c, b, a];
  }

  function Power10(k: nat): nat {
    if k == 0 then 1 else 10 * Power10(k - 1)
  }

  /** Digit k of the numeral, from the right, is the one at that place; and no digit is missing or idle. */
  lemma {:induction false} DecimalDigits(n: nat, k: nat)
    ensures var s := Decimal(n);
            && (k < |s| ==> Power10(k) > 0 && s[|s| - 1 - k] as char == "0123456789"[n / Power10(k) % 10])
            && n < Power10(|s|) && (|s| > 1 ==> n >= Power10(|s| - 1))
  {
    DigitChars(n % 10);
    PowersArePositive(k);
    if n >= 10 {
      DecimalDigits(n / 10, if k > 0 then k - 1 else 0);
      if k > 0 {
        DivideTwice(n, Power10(k - 1));
      }
    } else if k == 0 {
      assert n / 1 % 10 == n;
    }
  }

  lemma PowersArePositive(k: nat)
    ensures Power10(k) > 0
  {
  }

  lemma DigitChars(d: nat)
    requires d < 10
    ensures (ZERO + d) as char == "0123456789"[d]
  {
  }

  lemma DivideTwice(n: nat, p: nat)
    requires p > 0
    ensures n / (10 * p) == n / 10 / p
  {
    var q, r := n / 10 / p, n / 10 % p;
    assert n / 10 == q * p + r;
    assert n == 10 * (q * p + r) + n % 10;
    assert n == q * (10 * p) + (10 * r + n % 10);
    Quotient(n, 10 * p, q, 10 * r + n % 10);
  }

  lemma Quotient(n: nat, m: nat, q: nat, r: nat)
    requires r < m && n == q * m + r
    ensures n / m == q
  {
    var d := n / m;
    assert n == m * d + n % m;
    if d < q {
      Multiple(m, d + 1, q);
    } else if q < d {
      Multiple(m, q + 1, d);
    }
  }

  lemma Multiple(m: nat, a: nat, b: nat)
    requires a <= b
    ensures m * (a - 1) + m == m * a <= m * b
  {
    assert m * b - m * a == m * (b - a);
  }

  /** Zeros in front of a field change nothing. */
  lemma {:induction false} LeadingZeros(s: seq<Byte>)
    requires AllDigits(s)
    ensures AllDigits([48] + s) && Value([48] + s) == Value(s)
  {
    if s == [] {
      assert [48] + s == [48];
      assert Value([48]) == Value([48][..0]) * 10 + 0;
    } else {
      var front := s[..|s| - 1];
      LeadingZeros(front);
      assert ([48] + s)[..|s|] == [48] + front;
    }
  }
}
