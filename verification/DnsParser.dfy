/**
  dns_parse_name of net/dns.c. The C loop is given as a machine with a step budget, because on
  some packets it does not end; a recursive decoder of labels with compression pointers
  (section 4.1.4 of RFC 1035) is the reference it is compared with.
 */
module DnsParser {
  import opened CTypes
  import opened CString
  import opened DnsNames
  import opened DnsCodec

  /** Both upper bits set. The other values above 63 are taken for label lengths, as the code does. */
  predicate IsPointer(b: Byte) {
    b >= 0xC0
  }

  /** Where the pointer at c leads; its second byte must be there. */
  function Target(p: seq<Byte>, c: nat): nat
    requires c + 1 < |p|
  {
    var high: int := p[c];
    high % 0x40 * 256 + p[c + 1]
  }

  // ---------------------------------------------------------------------------
  // The reference decoder
  // ---------------------------------------------------------------------------

  datatype Decoded = Labels(labels: seq<Label>) | Malformed | Unfinished

  /** The labels from position c on, read in at most `fuel` steps. A name may also end with the packet. */
  function Decode(p: seq<Byte>, c: nat, fuel: nat): Decoded
    decreases fuel
  {
    if fuel == 0 then Unfinished
    else if c >= |p| || p[c] == 0 then Labels([])
    else if IsPointer(p[c]) then
      if c + 1 >= |p| || Target(p, c) >= |p| then Malformed else Decode(p, Target(p, c), fuel - 1)
    else if c + 1 + p[c] > |p| then Malformed
    else
      match Decode(p, c + 1 + p[c], fuel - 1)
      case Labels(rest) => Labels([p[c + 1..c + 1 + p[c]]] + rest)
      case other => other
  }

  // ---------------------------------------------------------------------------
  // The machine of the C loop
  // ---------------------------------------------------------------------------

  datatype Parsed = Done(name: seq<Byte>, pos: nat) | Failed | Running

  /** The variables of the loop: current_pos, the name so far, and jump_pos once a pointer was followed. */
  datatype Cursor = Cursor(at: nat, name: seq<Byte>, jump: Option<nat>)

  function Parse(p: seq<Byte>, nameLen: nat, pos0: nat, c: Cursor, fuel: nat): (r: Parsed)
    requires |c.name| < nameLen
    ensures r.Done? ==> |r.name| < nameLen
    decreases fuel
  {
    if fuel == 0 then Running
    else if c.at >= |p| then Done(c.name, if c.jump.Some? then c.jump.value else pos0)
    else if p[c.at] == 0 then Done(c.name, if c.jump.Some? then pos0 else c.at + 1)
    else if IsPointer(p[c.at]) then
      if c.at + 1 >= |p| || Target(p, c.at) >= |p| then Failed
      else
        Parse(p, nameLen, pos0, c.(at := Target(p, c.at), jump := if c.jump.Some? then c.jump else Some(c.at + 2)),
            fuel - 1)
    else if |c.name| + p[c.at] + 1 >= nameLen || c.at + 1 + p[c.at] > |p| then Failed
    else
      Parse(p, nameLen, pos0,
            c.(at := c.at + 1 + p[c.at], name := Extended(c.name, p[c.at + 1..c.at + 1 + p[c.at]])), fuel - 1)
  }

  function Start(pos: nat): Cursor {
    Cursor(pos, [], None)
  }

  // ---------------------------------------------------------------------------
  // Refinement of the decoder
  // ---------------------------------------------------------------------------

  /** The length test each label passes when `have` bytes of the name are written. */
  predicate Fits(have: nat, labels: seq<Label>, nameLen: nat)
    decreases |labels|
  {
    labels == [] ||
    (have + |labels[0]| + 1 < nameLen && Fits(have + (if have > 0 then 1 else 0) + |labels[0]|, labels[1..], nameLen))
  }

  /** So a name of one label needs a byte more than it takes, and other names just what they take. */
  lemma {:induction false} FitsMeans(name: seq<Byte>, labels: seq<Label>, nameLen: nat)
    requires forall i :: 0 <= i < |labels| ==> labels[i] != []
    ensures Fits(|name|, labels, nameLen) <==>
            labels == [] || (|name| + |labels[0]| + 1 < nameLen && |JoinOnto(name, labels)| < nameLen)
    decreases |labels|
  {
    if labels != [] {
      FitsMeans(Extended(name, labels[0]), labels[1..], nameLen);
      JoinOntoGrows(Extended(name, labels[0]), labels[1..]);
    }
  }

  function JoinOnto(name: seq<Byte>, labels: seq<Label>): seq<Byte>
    decreases |labels|
  {
    if labels == [] then name else JoinOnto(Extended(name, labels[0]), labels[1..])
  }

  lemma {:induction false} JoinOntoGrows(name: seq<Byte>, labels: seq<Label>)
    requires forall i :: 0 <= i < |labels| ==> labels[i] != []
    ensures |JoinOnto(name, labels)| >= |name| + (if labels == [] then 0 else |labels[0]| + if |name| > 0 then 1 else 0)
    decreases |labels|
  {
    if labels != [] {
      JoinOntoGrows(Extended(name, labels[0]), labels[1..]);
    }
  }

  lemma {:induction false} JoinOntoIsJoin(done: seq<Label>, labels: seq<Label>)
    requires forall i :: 0 <= i < |done| ==> done[i] != []
    requires forall i :: 0 <= i < |labels| ==> labels[i] != []
    ensures JoinOnto(Join(done), labels) == Join(done + labels)
    decreases |labels|
  {
    if labels == [] {
      assert done + labels == done;
    } else {
      JoinSnoc(done, labels[0]);
      JoinOntoIsJoin(done + [labels[0]], labels[1..]);
      assert done + labels == (done + [labels[0]]) + labels[1..];
    }
  }

  lemma {:induction false} DecodedLabelsNonEmpty(p: seq<Byte>, c: nat, fuel: nat)
    ensures var d := Decode(p, c, fuel); d.Labels? ==> forall i :: 0 <= i < |d.labels| ==> d.labels[i] != []
    decreases fuel
  {
    if fuel > 0 && c < |p| && p[c] != 0 {
      if IsPointer(p[c]) {
        if c + 1 < |p| && Target(p, c) < |p| {
          DecodedLabelsNonEmpty(p, Target(p, c), fuel - 1);
          assert Decode(p, c, fuel) == Decode(p, Target(p, c), fuel - 1);
        }
      } else {
        DecodedLabelsNonEmpty(p, c + 1 + p[c], fuel - 1);
      }
    }
  }

  lemma {:induction false} ParseFollowsDecode(p: seq<Byte>, nameLen: nat, pos0: nat, c: Cursor, fuel: nat)
    requires |c.name| < nameLen
    ensures var d, r := Decode(p, c.at, fuel), Parse(p, nameLen, pos0, c, fuel);
            && (d.Labels? ==> if Fits(|c.name|, d.labels, nameLen) then r.Done? && r.name == JoinOnto(c.name, d.labels)
                              else r == Failed)
            && (d.Malformed? ==> r == Failed)
            && (d.Unfinished? ==> r == Failed || r == Running)
    decreases fuel
  {
    if fuel > 0 && c.at < |p| && p[c.at] != 0 {
      if IsPointer(p[c.at]) {
        if c.at + 1 < |p| && Target(p, c.at) < |p| {
          ParseFollowsDecode(p, nameLen, pos0,
            c.(at := Target(p, c.at), jump := if c.jump.Some? then c.jump else Some(c.at + 2)), fuel - 1);
        }
      } else if |c.name| + p[c.at] + 1 < nameLen && c.at + 1 + p[c.at] <= |p| {
        ParseFollowsDecode(p, nameLen, pos0,
          c.(at := c.at + 1 + p[c.at], name := Extended(c.name, p[c.at + 1..c.at + 1 + p[c.at]])), fuel - 1);
      }
    }
  }

  /**
    dns_parse_name refines the label decoder: it succeeds just when the decoder does and the name
    fits the buffer, and then gives the labels joined by dots.
   */
  lemma ParseRefinesDecode(p: seq<Byte>, nameLen: nat, pos: nat, fuel: nat)
    requires nameLen > 0
    ensures var d, r := Decode(p, pos, fuel), Parse(p, nameLen, pos, Start(pos), fuel);
            && (r.Done? <==>
                  && d.Labels?
                  && (d.labels == [] || (|d.labels[0]| + 1 < nameLen && |Join(d.labels)| < nameLen)))
            && (r.Done? ==> r.name == Join(d.labels))
            && (r.Running? ==> d.Unfinished?)
  {
    var d := Decode(p, pos, fuel);
    ParseFollowsDecode(p, nameLen, pos, Start(pos), fuel);
    if d.Labels? {
      DecodedLabelsNonEmpty(p, pos, fuel);
      FitsMeans([], d.labels, nameLen);
      JoinOntoIsJoin([], d.labels);
      assert [] + d.labels == d.labels;
    }
  }

  /** Where decoding stops: at a root label, or past the end of the packet. */
  function StopsAt(p: seq<Byte>, c: nat, fuel: nat): nat
    decreases fuel
  {
    if fuel == 0 || c >= |p| || p[c] == 0 then c
    else if IsPointer(p[c]) then (if c + 1 >= |p| then c else StopsAt(p, Target(p, c), fuel - 1))
    else StopsAt(p, c + 1 + p[c], fuel - 1)
  }

  /** The position behind the first pointer met on the way, if any. */
  function FirstJump(p: seq<Byte>, c: nat, fuel: nat): Option<nat>
    decreases fuel
  {
    if fuel == 0 || c >= |p| || p[c] == 0 then None
    else if IsPointer(p[c]) then Some(c + 2)
    else FirstJump(p, c + 1 + p[c], fuel - 1)
  }

  /**
    Where a successful parse leaves the caller's position: behind a root label reached without
    pointers, but where it was when a pointer led to the root label; a name that runs to the end
    of the packet moves it behind its first pointer, or not at all.
   */
  lemma {:induction false} PositionAfterName(p: seq<Byte>, nameLen: nat, pos0: nat, c: Cursor, fuel: nat)
    requires |c.name| < nameLen && Parse(p, nameLen, pos0, c, fuel).Done?
    ensures var stop, jump := StopsAt(p, c.at, fuel), if c.jump.Some? then c.jump else FirstJump(p, c.at, fuel);
            Parse(p, nameLen, pos0, c, fuel).pos ==
              if stop < |p| then (if jump.Some? then pos0 else stop + 1)
              else (if jump.Some? then jump.value else pos0)
    decreases fuel
  {
    if c.at < |p| && p[c.at] != 0 {
      if IsPointer(p[c.at]) {
        PositionAfterName(p, nameLen, pos0,
          c.(at := Target(p, c.at), jump := if c.jump.Some? then c.jump else Some(c.at + 2)), fuel - 1);
      } else {
        PositionAfterName(p, nameLen, pos0,
          c.(at := c.at + 1 + p[c.at], name := Extended(c.name, p[c.at + 1..c.at + 1 + p[c.at]])), fuel - 1);
      }
    }
  }

  /** A root label at 0 and a pointer to it at 1: parsing from 1 follows the pointer and leaves the position at 1. */
  lemma PositionCanStay(nameLen: nat, fuel: nat)
    requires nameLen > 0 && fuel >= 2
    ensures Parse([0, 0xC0, 0], nameLen, 1, Start(1), fuel) == Done([], 1)
  {
  }

  // ---------------------------------------------------------------------------
  // Termination
  // ---------------------------------------------------------------------------

  /** From c at most k pointers are followed before something else, or an error, is met. */
  predicate EndsIn(p: seq<Byte>, c: nat, k: nat)
    decreases k
  {
    c + 1 >= |p| || !IsPointer(p[c]) || Target(p, c) >= |p| || (k > 0 && EndsIn(p, Target(p, c), k - 1))
  }

  ghost predicate Settles(p: seq<Byte>, c: nat) {
    exists k: nat :: EndsIn(p, c, k)
  }

  /** The chain at c, if there is one, ends within as many steps as the packet has bytes. */
  predicate EndsSoon(p: seq<Byte>, c: nat) {
    EndsIn(p, c, |p|)
  }

  ghost predicate Halts(p: seq<Byte>, nameLen: nat, pos: nat) {
    nameLen > 0 && exists fuel: nat :: Parse(p, nameLen, pos, Start(pos), fuel) != Running
  }

  /** The measure is the room left in the name, then the pointers left to follow. */
  lemma {:induction false} SettledParseEnds(p: seq<Byte>, nameLen: nat, pos0: nat, c: Cursor, k: nat)
      returns (fuel: nat)
    requires |c.name| < nameLen && EndsIn(p, c.at, k)
    requires forall q: nat :: q < |p| ==> Settles(p, q)
    ensures Parse(p, nameLen, pos0, c, fuel) != Running
    decreases nameLen - |c.name|, k
  {
    if c.at >= |p| || p[c.at] == 0 {
      fuel := 1;
    } else if IsPointer(p[c.at]) {
      if c.at + 1 >= |p| || Target(p, c.at) >= |p| {
        fuel := 1;
      } else {
        var next := c.(at := Target(p, c.at), jump := if c.jump.Some? then c.jump else Some(c.at + 2));
        var rest := SettledParseEnds(p, nameLen, pos0, next, k - 1);
        fuel := rest + 1;
      }
    } else if |c.name| + p[c.at] + 1 >= nameLen || c.at + 1 + p[c.at] > |p| {
      fuel := 1;
    } else {
      var next := c.(at := c.at + 1 + p[c.at], name := Extended(c.name, p[c.at + 1..c.at + 1 + p[c.at]]));
      var k': nat := 0;
      if next.at < |p| {
        assert Settles(p, next.at);
        k' :| EndsIn(p, next.at, k');
      }
      var rest := SettledParseEnds(p, nameLen, pos0, next, k');
      fuel := rest + 1;
    }
  }

  lemma {:induction false} EndlessPointersRun(p: seq<Byte>, nameLen: nat, pos0: nat, c: Cursor, fuel: nat)
    requires |c.name| < nameLen && !Settles(p, c.at)
    ensures Parse(p, nameLen, pos0, c, fuel) == Running
    decreases fuel
  {
    assert !EndsIn(p, c.at, 0);
    if fuel > 0 {
      var t := Target(p, c.at);
      assert !Settles(p, t) by {
        if Settles(p, t) {
          var k: nat :| EndsIn(p, t, k);
          assert EndsIn(p, c.at, k + 1);
        }
      }
      EndlessPointersRun(p, nameLen, pos0, c.(at := t, jump := if c.jump.Some? then c.jump else Some(c.at + 2)),
          fuel - 1);
    }
  }

  /**
    Parsing ends from every position of a packet if and only if no chain of pointers in it is
    endless, that is, if every chain ends within as many steps as the packet has bytes. On any other
    packet the loop of dns_parse_name does not end.
   */
  lemma ParsingEndsIff(p: seq<Byte>, nameLen: nat)
    requires nameLen > 0
    ensures (forall pos: nat :: pos < |p| ==> Halts(p, nameLen, pos)) <==> (forall q: nat :: q < |p| ==> EndsSoon(p, q))
  {
    forall q: nat | q < |p| ensures Settles(p, q) <==> EndsSoon(p, q) {
      SettlesIff(p, q);
    }
    if forall q: nat :: q < |p| ==> EndsSoon(p, q) {
      forall pos: nat | pos < |p| ensures Halts(p, nameLen, pos) {
        AllSettledHalts(p, nameLen, pos);
      }
    } else {
      var q: nat :| q < |p| && !EndsSoon(p, q);
      EndlessNeverHalts(p, nameLen, q);
      assert !forall pos: nat :: pos < |p| ==> Halts(p, nameLen, pos);
    }
  }

  lemma AllSettledHalts(p: seq<Byte>, nameLen: nat, pos: nat)
    requires nameLen > 0 && pos < |p| && forall q: nat :: q < |p| ==> Settles(p, q)
    ensures Halts(p, nameLen, pos)
  {
    assert Settles(p, pos);
    var k: nat :| EndsIn(p, pos, k);
    var fuel := SettledParseEnds(p, nameLen, pos, Start(pos), k);
  }

  lemma EndlessNeverHalts(p: seq<Byte>, nameLen: nat, pos: nat)
    requires nameLen > 0 && !Settles(p, pos)
    ensures !Halts(p, nameLen, pos)
  {
    if Halts(p, nameLen, pos) {
      var fuel: nat :| Parse(p, nameLen, pos, Start(pos), fuel) != Running;
      EndlessPointersRun(p, nameLen, pos, Start(pos), fuel);
    }
  }

  /**
    The pointers of a shortest chain lie at k different places: from each of them the chain ends
    within k steps, and the place in front of them needs one step more.
   */
  lemma {:induction false} PointersOfChain(p: seq<Byte>, c: nat, k: nat) returns (places: set<nat>)
    requires EndsIn(p, c, k) && (k > 0 ==> !EndsIn(p, c, k - 1))
    ensures |places| == k && forall q :: q in places ==> q < |p| && EndsIn(p, q, k)
    decreases k
  {
    places := {};
    if k > 0 {
      var t := Target(p, c);
      var rest := PointersOfChain(p, t, k - 1);
      assert c !in rest;
      forall q | q in rest ensures EndsIn(p, q, k) {
        EndsInMore(p, q, k - 1, k);
      }
      places := rest + {c};
    }
  }

  lemma {:induction false} PlacesInPacket(places: set<nat>, n: nat)
    requires forall q :: q in places ==> q < n
    ensures |places| <= n
  {
    if n > 0 {
      PlacesInPacket(places - {n - 1}, n - 1);
    } else {
      assert places == {};
    }
  }

  /** So a chain of pointers that ends does so within as many steps as the packet has bytes. */
  lemma SettlesIff(p: seq<Byte>, c: nat)
    ensures Settles(p, c) <==> EndsSoon(p, c)
  {
    if Settles(p, c) {
      var k: nat :| EndsIn(p, c, k);
      ShortestChainFits(p, c, k);
    }
  }

  lemma {:induction false} ShortestChainFits(p: seq<Byte>, c: nat, k: nat)
    requires EndsIn(p, c, k)
    ensures EndsIn(p, c, |p|)
    decreases k
  {
    if k > 0 && EndsIn(p, c, k - 1) {
      ShortestChainFits(p, c, k - 1);
    } else {
      var places := PointersOfChain(p, c, k);
      PlacesInPacket(places, |p|);
      EndsInMore(p, c, k, |p|);
    }
  }

  /** Steps that suffice with `room` bytes left for the name and k pointers left to follow. */
  function Steps(p: seq<Byte>, room: nat, k: nat): nat {
    room * (|p| + 2) + k + 1
  }

  lemma {:induction false} EndedParseIsShort(p: seq<Byte>, nameLen: nat, pos0: nat, c: Cursor, k: nat, fuel: nat)
    requires |c.name| < nameLen && EndsIn(p, c.at, k) && Parse(p, nameLen, pos0, c, fuel) != Running
    ensures Parse(p, nameLen, pos0, c, Steps(p, nameLen - |c.name|, k)) != Running
    decreases nameLen - |c.name|, k
  {
    hide Steps, Extended, IsPointer, Target;
    var room, enough := nameLen - |c.name|, Steps(p, nameLen - |c.name|, k);
    StepsFor(p, room, k);
    if c.at >= |p| || p[c.at] == 0 {
    } else if IsPointer(p[c.at]) {
      if c.at + 1 < |p| && Target(p, c.at) < |p| {
        var next := c.(at := Target(p, c.at), jump := if c.jump.Some? then c.jump else Some(c.at + 2));
        EndedParseIsShort(p, nameLen, pos0, next, k - 1, fuel - 1);
      }
    } else if |c.name| + p[c.at] + 1 < nameLen && c.at + 1 + p[c.at] <= |p| {
      var next := c.(at := c.at + 1 + p[c.at], name := Extended(c.name, p[c.at + 1..c.at + 1 + p[c.at]]));
      ExtendedIs(c.name, p[c.at + 1..c.at + 1 + p[c.at]]);
      var room' := nameLen - |next.name|;
      if !Settles(p, next.at) {
        EndlessPointersRun(p, nameLen, pos0, next, fuel - 1);
      }
      SettlesIff(p, next.at);
      EndedParseIsShort(p, nameLen, pos0, next, |p|, fuel - 1);
      StepsLeft(p, room, room', k);
      MoreFuel(p, nameLen, pos0, next, Steps(p, room', |p|), enough - 1);
    }
  }

  lemma StepsFor(p: seq<Byte>, room: nat, k: nat)
    ensures Steps(p, room, k) >= 1 && (k > 0 ==> Steps(p, room, k) == Steps(p, room, k - 1) + 1)
  {
  }

  lemma ExtendedIs(name: seq<Byte>, part: Label)
    ensures |name| + |part| <= |Extended(name, part)| <= |name| + 1 + |part|
  {
  }

  lemma StepsLeft(p: seq<Byte>, room: nat, room': nat, k: nat)
    requires room' < room
    ensures Steps(p, room', |p|) < Steps(p, room, k)
  {
    assert room' * (|p| + 2) <= (room - 1) * (|p| + 2);
  }

  lemma {:induction false} MoreFuel(p: seq<Byte>, nameLen: nat, pos0: nat, c: Cursor, fuel: nat, more: nat)
    requires |c.name| < nameLen && fuel <= more && Parse(p, nameLen, pos0, c, fuel) != Running
    ensures Parse(p, nameLen, pos0, c, more) != Running
    decreases fuel
  {
    if c.at < |p| && p[c.at] != 0 {
      if IsPointer(p[c.at]) {
        if c.at + 1 < |p| && Target(p, c.at) < |p| {
          MoreFuel(p, nameLen, pos0,
            c.(at := Target(p, c.at), jump := if c.jump.Some? then c.jump else Some(c.at + 2)), fuel - 1, more - 1);
        }
      } else if |c.name| + p[c.at] + 1 < nameLen && c.at + 1 + p[c.at] <= |p| {
        MoreFuel(p, nameLen, pos0,
          c.(at := c.at + 1 + p[c.at], name := Extended(c.name, p[c.at + 1..c.at + 1 + p[c.at]])), fuel - 1, more - 1);
      }
    }
  }

  /**
    For one position: parsing from it ends if and only if it ends within a number of steps that only
    the lengths of packet and buffer determine.
   */
  lemma HaltsWithinIff(p: seq<Byte>, nameLen: nat, pos: nat)
    requires nameLen > 0
    ensures Halts(p, nameLen, pos) <==> Parse(p, nameLen, pos, Start(pos), Steps(p, nameLen, |p|)) != Running
  {
    if Halts(p, nameLen, pos) {
      var fuel: nat :| Parse(p, nameLen, pos, Start(pos), fuel) != Running;
      if !Settles(p, pos) {
        EndlessPointersRun(p, nameLen, pos, Start(pos), fuel);
      }
      SettlesIff(p, pos);
      EndedParseIsShort(p, nameLen, pos, Start(pos), |p|, fuel);
    }
  }

  /** Where the chain of pointers at c leads, followed for at most k steps. */
  function Landing(p: seq<Byte>, c: nat, k: nat): nat
    decreases k
  {
    if k == 0 || c + 1 >= |p| || !IsPointer(p[c]) || Target(p, c) >= |p| then c else Landing(p, Target(p, c), k - 1)
  }

  /**
    With `have` bytes of the name written: the chain of pointers at c ends, and so does the chain behind
    the label it leads to, and behind the next one, as long as the labels lie in the packet and fit the name.
   */
  predicate ChainsEnd(p: seq<Byte>, nameLen: nat, c: nat, have: nat)
    requires have < nameLen
    decreases nameLen - have
  {
    EndsSoon(p, c) &&
    var t := Landing(p, c, |p|);
    t >= |p| || p[t] == 0 || IsPointer(p[t]) || have + p[t] + 1 >= nameLen || t + 1 + p[t] > |p|
    || ChainsEnd(p, nameLen, t + 1 + p[t], have + (if have > 0 then 1 else 0) + p[t])
  }

  ghost predicate Ends(p: seq<Byte>, nameLen: nat, pos0: nat, c: Cursor)
    requires |c.name| < nameLen
  {
    exists fuel: nat :: Parse(p, nameLen, pos0, c, fuel) != Running
  }

  function Jumped(p: seq<Byte>, c: Cursor): Cursor
    requires c.at + 1 < |p|
  {
    c.(at := Target(p, c.at), jump := if c.jump.Some? then c.jump else Some(c.at + 2))
  }

  lemma EndsAfterPointer(p: seq<Byte>, nameLen: nat, pos0: nat, c: Cursor)
    requires |c.name| < nameLen && c.at + 1 < |p| && IsPointer(p[c.at]) && Target(p, c.at) < |p|
    ensures Ends(p, nameLen, pos0, c) <==> Ends(p, nameLen, pos0, Jumped(p, c))
  {
    hide IsPointer, Target;
    PointerIsNotRoot(p[c.at]);
    var next := Jumped(p, c);
    if Ends(p, nameLen, pos0, c) {
      var fuel: nat :| Parse(p, nameLen, pos0, c, fuel) != Running;
      assert Parse(p, nameLen, pos0, c, fuel) == Parse(p, nameLen, pos0, next, fuel - 1);
    }
    if fuel: nat :| Parse(p, nameLen, pos0, next, fuel) != Running {
      assert Parse(p, nameLen, pos0, c, fuel + 1) == Parse(p, nameLen, pos0, next, fuel);
    }
  }

  lemma PointerIsNotRoot(b: Byte)
    requires IsPointer(b)
    ensures b != 0
  {
  }

  function Labelled(p: seq<Byte>, c: Cursor): Cursor
    requires c.at < |p| && c.at + 1 + p[c.at] <= |p|
  {
    c.(at := c.at + 1 + p[c.at], name := Extended(c.name, p[c.at + 1..c.at + 1 + p[c.at]]))
  }

  lemma EndsAfterLabel(p: seq<Byte>, nameLen: nat, pos0: nat, c: Cursor)
    requires c.at < |p| && p[c.at] != 0 && !IsPointer(p[c.at])
    requires |c.name| + p[c.at] + 1 < nameLen && c.at + 1 + p[c.at] <= |p|
    ensures |Labelled(p, c).name| == |c.name| + (if |c.name| > 0 then 1 else 0) + p[c.at] < nameLen
    ensures Ends(p, nameLen, pos0, c) <==> Ends(p, nameLen, pos0, Labelled(p, c))
  {
    hide IsPointer;
    var next := Labelled(p, c);
    assert |next.name| == |c.name| + (if |c.name| > 0 then 1 else 0) + p[c.at];
    hide Extended;
    if Ends(p, nameLen, pos0, c) {
      var fuel: nat :| Parse(p, nameLen, pos0, c, fuel) != Running;
      assert Parse(p, nameLen, pos0, c, fuel) == Parse(p, nameLen, pos0, next, fuel - 1);
    }
    if fuel: nat :| Parse(p, nameLen, pos0, next, fuel) != Running {
      assert Parse(p, nameLen, pos0, c, fuel + 1) == Parse(p, nameLen, pos0, next, fuel);
    }
  }

  lemma EndsHere(p: seq<Byte>, nameLen: nat, pos0: nat, c: Cursor)
    requires |c.name| < nameLen
    requires || c.at >= |p| || p[c.at] == 0
             || (if IsPointer(p[c.at]) then c.at + 1 >= |p| || Target(p, c.at) >= |p|
                 else |c.name| + p[c.at] + 1 >= nameLen || c.at + 1 + p[c.at] > |p|)
    ensures Ends(p, nameLen, pos0, c)
  {
    assert Parse(p, nameLen, pos0, c, 1) != Running;
  }

  /** A chain of pointers that ends can be skipped. */
  lemma {:induction false} EndsAtLanding(p: seq<Byte>, nameLen: nat, pos0: nat, c: Cursor, k: nat) returns (d: Cursor)
    requires |c.name| < nameLen && EndsIn(p, c.at, k)
    ensures d.at == Landing(p, c.at, k) && d.name == c.name
    ensures d.at + 1 < |p| && IsPointer(p[d.at]) ==> Target(p, d.at) >= |p|
    ensures Ends(p, nameLen, pos0, c) <==> Ends(p, nameLen, pos0, d)
    decreases k
  {
    hide Ends, IsPointer, Target;
    if c.at + 1 < |p| && IsPointer(p[c.at]) && Target(p, c.at) < |p| {
      EndsAfterPointer(p, nameLen, pos0, c);
      d := EndsAtLanding(p, nameLen, pos0, Jumped(p, c), k - 1);
    } else {
      d := c;
    }
  }

  lemma {:induction false} EndsIff(p: seq<Byte>, nameLen: nat, pos0: nat, c: Cursor)
    requires |c.name| < nameLen
    ensures Ends(p, nameLen, pos0, c) <==> ChainsEnd(p, nameLen, c.at, |c.name|)
    decreases nameLen - |c.name|
  {
    hide Ends, IsPointer, Target, Extended;
    SettlesIff(p, c.at);
    if !EndsSoon(p, c.at) {
      EndlessNeverEnds(p, nameLen, pos0, c);
    } else {
      var d := EndsAtLanding(p, nameLen, pos0, c, |p|);
      if d.at < |p| && p[d.at] != 0 && !IsPointer(p[d.at])
         && |c.name| + p[d.at] + 1 < nameLen && d.at + 1 + p[d.at] <= |p| {
        EndsAfterLabel(p, nameLen, pos0, d);
        EndsIff(p, nameLen, pos0, Labelled(p, d));
      } else {
        EndsHere(p, nameLen, pos0, d);
      }
    }
  }

  lemma EndlessNeverEnds(p: seq<Byte>, nameLen: nat, pos0: nat, c: Cursor)
    requires |c.name| < nameLen && !Settles(p, c.at)
    ensures !Ends(p, nameLen, pos0, c)
  {
    hide Settles;
    forall fuel: nat ensures Parse(p, nameLen, pos0, c, fuel) == Running {
      EndlessPointersRun(p, nameLen, pos0, c, fuel);
    }
  }

  /**
    For one position: parsing from it ends if and only if the chain of pointers there ends, and the chain
    behind every label it reads while the name has room. This can be tested before parsing: each
    chain within as many steps as the packet has bytes, and the name grows with each label.
   */
  lemma HaltsIff(p: seq<Byte>, nameLen: nat, pos: nat)
    requires nameLen > 0
    ensures Halts(p, nameLen, pos) <==> ChainsEnd(p, nameLen, pos, 0)
  {
    EndsIff(p, nameLen, pos, Start(pos));
  }

  /** In particular when every pointer leads strictly backwards. */
  ghost predicate PointsBackwards(p: seq<Byte>) {
    forall c: nat :: c + 1 < |p| && IsPointer(p[c]) ==> Target(p, c) < c
  }

  lemma {:induction false} BackwardsSettles(p: seq<Byte>, c: nat)
    requires PointsBackwards(p)
    ensures EndsIn(p, c, c)
  {
    if c + 1 < |p| && IsPointer(p[c]) {
      BackwardsSettles(p, Target(p, c));
      EndsInMore(p, Target(p, c), Target(p, c), c - 1);
    }
  }

  lemma {:induction false} EndsInMore(p: seq<Byte>, c: nat, k: nat, m: nat)
    requires EndsIn(p, c, k) && k <= m
    ensures EndsIn(p, c, m)
    decreases k
  {
    if !(c + 1 >= |p| || !IsPointer(p[c]) || Target(p, c) >= |p|) {
      EndsInMore(p, Target(p, c), k - 1, m - 1);
    }
  }

  lemma BackwardPointersHalt(p: seq<Byte>, nameLen: nat, pos: nat)
    requires PointsBackwards(p) && nameLen > 0
    ensures Halts(p, nameLen, pos)
  {
    forall q: nat | q < |p| ensures Settles(p, q) {
      BackwardsSettles(p, q);
    }
    BackwardsSettles(p, pos);
    var fuel := SettledParseEnds(p, nameLen, pos, Start(pos), pos);
  }

  /** Two bytes are enough: a pointer to itself. */
  lemma SelfPointerRunsForever(nameLen: nat)
    requires nameLen > 0
    ensures !Halts([0xC0, 0], nameLen, 0)
  {
    var p: seq<Byte> := [0xC0, 0];
    forall k: nat ensures !EndsIn(p, 0, k) {
      SelfPointerNeverEnds(k);
    }
    if Halts(p, nameLen, 0) {
      var fuel: nat :| Parse(p, nameLen, 0, Start(0), fuel) != Running;
      EndlessPointersRun(p, nameLen, 0, Start(0), fuel);
    }
  }

  lemma {:induction false} SelfPointerNeverEnds(k: nat)
    ensures !EndsIn([0xC0, 0], 0, k)
  {
    if k > 0 {
      SelfPointerNeverEnds(k - 1);
    }
  }

  // ---------------------------------------------------------------------------
  // The round trip
  // ---------------------------------------------------------------------------

  /** An encoded name lies at c, ended by the root label. */
  ghost predicate WireAt(p: seq<Byte>, c: nat, labels: seq<Label>)
    requires AllShort(labels)
  {
    c + |Wire(labels)| + 1 <= |p| && p[c..c + |Wire(labels)| + 1] == Wire(labels) + [0]
  }

  lemma WireAtStep(p: seq<Byte>, c: nat, labels: seq<Label>)
    requires AllShort(labels) && WireAt(p, c, labels) && labels != []
    ensures c < |p| && p[c] == |labels[0]| && c + 1 + |labels[0]| <= |p| && p[c + 1..c + 1 + |labels[0]|] == labels[0]
    ensures WireAt(p, c + 1 + |labels[0]|, labels[1..])
  {
    var n, w := |labels[0]|, p[c..c + |Wire(labels)| + 1];
    assert w == [n] + (labels[0] + (Wire(labels[1..]) + [0]));
    assert w[0] == n;
    assert w[1..] == labels[0] + (Wire(labels[1..]) + [0]);
    assert w[1..][..n] == labels[0] && w[1..][n..] == Wire(labels[1..]) + [0];
    assert w[1..][..n] == p[c + 1..c + 1 + n];
    assert w[1..][n..] == p[c + 1 + n..c + |Wire(labels)| + 1];
  }

  lemma {:induction false} ParseWire(p: seq<Byte>, nameLen: nat, pos0: nat, c: Cursor, labels: seq<Label>, fuel: nat)
    requires |c.name| < nameLen && c.jump == None && fuel > |labels|
    requires AllShort(labels) && (forall i :: 0 <= i < |labels| ==> labels[i] != []) && WireAt(p, c.at, labels)
    requires Fits(|c.name|, labels, nameLen)
    ensures Parse(p, nameLen, pos0, c, fuel) == Done(JoinOnto(c.name, labels), c.at + |Wire(labels)| + 1)
    decreases |labels|
  {
    if labels == [] {
      assert p[c.at..c.at + 1][0] == 0;
    } else {
      WireAtStep(p, c.at, labels);
      var next := c.(at := c.at + 1 + |labels[0]|, name := Extended(c.name, labels[0]));
      ParseWire(p, nameLen, pos0, next, labels[1..], fuel - 1);
    }
  }

  /**
    For every name accepted by dns_is_valid_hostname: the encoder writes strlen + 2 bytes, and the
    parser with its 256-byte buffer, started where they lie in any packet, gives the name back and
    moves the position just past the root label.
   */
  lemma HostnameRoundTrip(name: seq<Byte>, p: seq<Byte>, pos: nat, fuel: nat)
    requires ValidHostname(name) && fuel > |name|
    requires (HostnameEncodes(name); WireAt(p, pos, EncodedLabels(name)))
    ensures Parse(p, 256, pos, Start(pos), fuel) == Done(name, pos + |name| + 2)
  {
    var labels := Split(name);
    HostnameEncodes(name);
    JoinSplit(name);
    FitsMeans([], labels, 256);
    JoinOntoIsJoin([], labels);
    assert [] + labels == labels;
    JoinOntoGrows([], labels);
    ParseWire(p, 256, pos, Start(pos), labels, fuel);
  }

  lemma HostnameEncodes(name: seq<Byte>)
    requires ValidHostname(name)
    ensures var labels := EncodedLabels(name);
            && labels == Split(name) && AllShort(labels) && (forall i :: 0 <= i < |labels| ==> labels[i] != [])
            && |Wire(labels) + [0]| == |name| + 2 && |labels| <= |name|
  {
    var labels := Split(name);
    EncodedAreSplit(name);
    assert ValidLabel(labels[|labels| - 1]);
    assert forall i :: 0 <= i < |labels| ==> ValidLabel(labels[i]);
    JoinSplit(name);
    WireLength(labels);
  }

  lemma {:induction false} WireLength(labels: seq<Label>)
    requires AllShort(labels) && labels != [] && forall i :: 0 <= i < |labels| ==> labels[i] != []
    ensures |Wire(labels)| == |Join(labels)| + 1
    ensures |labels| <= |Join(labels)|
  {
    if |labels| == 1 {
      assert labels[1..] == [];
      assert Wire(labels) == [|labels[0]|] + labels[0] + [];
    } else {
      WireLength(labels[1..]);
    }
  }

  // ---------------------------------------------------------------------------
  // dns_parse_name
  // ---------------------------------------------------------------------------

  /** Append a label, behind a dot unless it is the first. */
  method AppendLabel(packet: seq<Byte>, from: nat, labelLen: nat, name: array<Byte>, namePos: nat)
      returns (namePos': nat)
    requires from + labelLen <= |packet| && namePos + labelLen + 1 < name.Length
    modifies name
    ensures namePos' < name.Length
    ensures name[..namePos'] == Extended(old(name[..namePos]), packet[from..from + labelLen])
  {
    namePos' := namePos;
    if namePos > 0 {
      name[namePos'] := DOT;
      namePos' := namePos' + 1;
    }
    Memcpy(name, namePos', packet, from, labelLen);
    namePos' := namePos' + labelLen;
  }

  /** A null position or name cannot be passed here; name_len is name.Length. */
  method ParseName(packet: seq<Byte>, pos: nat, name: array<Byte>) returns (r: int, pos': nat)
    requires name.Length == 0 || ChainsEnd(packet, name.Length, pos, 0)
    modifies name
    ensures name.Length == 0 ==> r == -1 && pos' == pos
    ensures name.Length > 0 ==> forall fuel: nat ::
      match Parse(packet, name.Length, pos, Start(pos), fuel)
      case Running => true
      case Failed => r == -1 && pos' == pos
      case Done(n, p) => r == 0 && pos' == p && name[..|n|] == n && name[|n|] == 0
  {
    hide Target, IsPointer, Extended;
    if name.Length == 0 {
      return -1, pos;
    }
    HaltsIff(packet, name.Length, pos);
    ghost var total: nat :| Parse(packet, name.Length, pos, Start(pos), total) != Running;
    ghost var fuel := total;
    var currentPos: nat, namePos: nat, jumped, jumpPos: nat := pos, 0, false, 0;
    ghost var c := Start(pos);
    ParseStable(packet, name.Length, pos, Start(pos), total);
    while currentPos < |packet|
      invariant namePos < name.Length
      invariant c == Cursor(currentPos, name[..namePos], if jumped then Some(jumpPos) else None)
      invariant Parse(packet, name.Length, pos, c, fuel) == Parse(packet, name.Length, pos, Start(pos), total)
      decreases fuel
    {
      var labelLen := packet[currentPos];
      if labelLen == 0 {
        name[namePos] := 0;
        return 0, if !jumped then currentPos + 1 else pos;
      } else if IsPointer(labelLen) {
        if currentPos + 1 >= |packet| {
          return -1, pos;
        }
        if !jumped {
          jumpPos := currentPos + 2;
          jumped := true;
        }
        currentPos := Target(packet, currentPos);
        if currentPos >= |packet| {
          return -1, pos;
        }
        c := Cursor(currentPos, c.name, Some(jumpPos));
      } else {
        if namePos + labelLen + 1 >= name.Length {
          return -1, pos;
        }
        if currentPos + 1 + labelLen > |packet| {
          return -1, pos;
        }
        c := c.(at := currentPos + 1 + labelLen,
            name := Extended(c.name, packet[currentPos + 1..currentPos + 1 + labelLen]));
        namePos := AppendLabel(packet, currentPos + 1, labelLen, name, namePos);
        currentPos := currentPos + 1 + labelLen;
      }
      fuel := fuel - 1;
    }
    name[namePos] := 0;
    return 0, if jumped then jumpPos else pos;
  }

  /** Whatever budgets suffice give one result. */
  lemma ParseStable(p: seq<Byte>, nameLen: nat, pos0: nat, c: Cursor, fuel: nat)
    requires |c.name| < nameLen && Parse(p, nameLen, pos0, c, fuel) != Running
    ensures forall more: nat :: Parse(p, nameLen, pos0, c, more) == Running
                             || Parse(p, nameLen, pos0, c, more) == Parse(p, nameLen, pos0, c, fuel)
  {
    forall more: nat ensures Parse(p, nameLen, pos0, c, more) == Running
                          || Parse(p, nameLen, pos0, c, more) == Parse(p, nameLen, pos0, c, fuel) {
      SameResult(p, nameLen, pos0, c, fuel, more);
    }
  }

  lemma {:induction false} SameResult(p: seq<Byte>, nameLen: nat, pos0: nat, c: Cursor, fuel: nat, more: nat)
    requires |c.name| < nameLen && Parse(p, nameLen, pos0, c, fuel) != Running
    ensures Parse(p, nameLen, pos0, c, more) == Running
         || Parse(p, nameLen, pos0, c, more) == Parse(p, nameLen, pos0, c, fuel)
    decreases fuel
  {
    if more > 0 && c.at < |p| && p[c.at] != 0 {
      if IsPointer(p[c.at]) {
        if c.at + 1 < |p| && Target(p, c.at) < |p| {
          SameResult(p, nameLen, pos0,
            c.(at := Target(p, c.at), jump := if c.jump.Some? then c.jump else Some(c.at + 2)), fuel - 1, more - 1);
        }
      } else if |c.name| + p[c.at] + 1 < nameLen && c.at + 1 + p[c.at] <= |p| {
        SameResult(p, nameLen, pos0,
          c.(at := c.at + 1 + p[c.at], name := Extended(c.name, p[c.at + 1..c.at + 1 + p[c.at]])), fuel - 1, more - 1);
      }
    }
  }
}
