/**
  The resolver cache of net/dns.c: 128 entries, filled from the front, the oldest one replaced
  when all are in use.
 */
module DnsCache {
  import opened CTypes

  const ENTRIES := 128
  const MAX_NAME := 255              // DNS_MAX_NAME_SIZE - 1
  const UINT32_MAX: Word32 := TWO32 - 1

  type Name = seq<Byte>

  datatype Entry = Entry(hostname: Name, ip: Word32, timestamp: Word32, valid: bool)

  /** strncpy into the hostname field */
  function Truncated(name: Name): (t: Name)
    ensures |t| <= MAX_NAME
  {
    if |name| <= MAX_NAME then name else name[..MAX_NAME]
  }

  // ---------------------------------------------------------------------------
  // Lookup and replacement, on the sequence of entries
  // ---------------------------------------------------------------------------

  predicate Holds(e: Entry, name: Name) {
    e.valid && e.hostname == name
  }

  /** dns_cache_lookup: the address of the first valid entry of that name, or 0. */
  function Lookup(cache: seq<Entry>, name: Name): Word32 {
    if cache == [] then 0 else if Holds(cache[0], name) then cache[0].ip else Lookup(cache[1..], name)
  }

  /** i is the entry dns_cache_add overwrites: the first unused one, or else the first of the oldest. */
  ghost predicate IsVictim(cache: seq<Entry>, i: nat) {
    && i < |cache|
    && (forall j :: 0 <= j < i ==> cache[j].valid)
    && (cache[i].valid ==>
          && cache[i].timestamp < UINT32_MAX
          && (forall j :: 0 <= j < |cache| ==> cache[j].valid)
          && (forall j :: 0 <= j < |cache| ==> cache[i].timestamp <= cache[j].timestamp)
          && (forall j :: 0 <= j < i ==> cache[i].timestamp < cache[j].timestamp))
  }

  /** No entry can be replaced: all are in use and carry the largest timestamp. */
  ghost predicate Stuck(cache: seq<Entry>) {
    forall j :: 0 <= j < |cache| ==> cache[j].valid && cache[j].timestamp == UINT32_MAX
  }

  lemma OneVictim(cache: seq<Entry>, i: nat, j: nat)
    requires IsVictim(cache, i) && IsVictim(cache, j)
    ensures i == j
  {
  }

  ghost predicate Replaced(cache: seq<Entry>, cache': seq<Entry>, i: nat, name: Name, ip: Word32, now: Word32) {
    IsVictim(cache, i) && cache' == cache[i := Entry(Truncated(name), ip, now, true)]
  }

  /** dns_cache_add: its effect and the value returned. */
  ghost predicate Added(cache: seq<Entry>, cache': seq<Entry>, r: int, name: Name, ip: Word32, now: Word32) {
    if r == 0 then exists i: nat :: Replaced(cache, cache', i, name, ip, now)
    else r == -1 && Stuck(cache) && cache' == cache
  }

  function Flushed(cache: seq<Entry>): seq<Entry> {
    seq(|cache|, i requires 0 <= i < |cache| => cache[i].(valid := false, hostname := []))
  }

  // ---------------------------------------------------------------------------
  // The cache as a map
  // ---------------------------------------------------------------------------

  /** Valid entries have names of their own. */
  ghost predicate Distinct(cache: seq<Entry>) {
    forall i, j :: 0 <= i < j < |cache| && cache[i].valid && cache[j].valid ==> cache[i].hostname != cache[j].hostname
  }

  /** Besides, the names fit the field and the addresses are real. */
  ghost predicate Proper(cache: seq<Entry>) {
    && Distinct(cache)
    && (forall i :: 0 <= i < |cache| && cache[i].valid ==> cache[i].ip != 0 && |cache[i].hostname| <= MAX_NAME)
  }

  lemma {:induction false} LookupMisses(cache: seq<Entry>, name: Name)
    requires forall i :: 0 <= i < |cache| ==> !Holds(cache[i], name)
    ensures Lookup(cache, name) == 0
  {
    if cache != [] {
      forall i | 0 <= i < |cache| - 1 ensures !Holds(cache[1..][i], name) {
        assert cache[1..][i] == cache[i + 1];
      }
      LookupMisses(cache[1..], name);
    }
  }

  lemma {:induction false} LookupHits(cache: seq<Entry>, name: Name, i: nat)
    requires i < |cache| && Holds(cache[i], name) && forall j :: 0 <= j < i ==> !Holds(cache[j], name)
    ensures Lookup(cache, name) == cache[i].ip
  {
    if i > 0 {
      assert cache[1..][i - 1] == cache[i];
      forall j | 0 <= j < i - 1 ensures !Holds(cache[1..][j], name) {
        assert cache[1..][j] == cache[j + 1];
      }
      LookupHits(cache[1..], name, i - 1);
    }
  }

  /** In a proper cache a lookup gives 0 exactly for the names no valid entry has. */
  lemma LookupZeroIff(cache: seq<Entry>, name: Name)
    requires Proper(cache)
    ensures Lookup(cache, name) == 0 <==> forall i :: 0 <= i < |cache| ==> !Holds(cache[i], name)
    ensures forall i :: 0 <= i < |cache| && Holds(cache[i], name) ==> Lookup(cache, name) == cache[i].ip
  {
    if forall i :: 0 <= i < |cache| ==> !Holds(cache[i], name) {
      LookupMisses(cache, name);
    }
    forall i: nat | i < |cache| && Holds(cache[i], name) ensures Lookup(cache, name) == cache[i].ip != 0 {
      LookupHits(cache, name, i);
    }
  }

  /** Another valid entry already carries the (truncated) name. */
  ghost predicate Doubles(cache: seq<Entry>, victim: nat, name: Name) {
    exists j :: 0 <= j < |cache| && j != victim && Holds(cache[j], Truncated(name))
  }

  /** Replacing an entry keeps the names distinct exactly when the name is not there in another entry. */
  lemma ReplaceKeepsDistinctIff(cache: seq<Entry>, cache': seq<Entry>, i: nat, name: Name, ip: Word32, now: Word32)
    requires Distinct(cache) && Replaced(cache, cache', i, name, ip, now)
    ensures Distinct(cache') <==> !Doubles(cache, i, name)
  {
    if Doubles(cache, i, name) {
      var j :| 0 <= j < |cache| && j != i && Holds(cache[j], Truncated(name));
      assert cache'[j] == cache[j] && cache'[i].hostname == Truncated(name);
    } else {
      forall a, b | 0 <= a < b < |cache'| && cache'[a].valid && cache'[b].valid
        ensures cache'[a].hostname != cache'[b].hostname
      {
        if a == i {
          assert !Holds(cache[b], Truncated(name));
        } else if b == i {
          assert !Holds(cache[a], Truncated(name));
        }
      }
    }
  }

  /** Replacing an entry keeps the cache proper exactly when the address is real and the name not there twice. */
  lemma ReplaceKeepsProperIff(cache: seq<Entry>, cache': seq<Entry>, i: nat, name: Name, ip: Word32, now: Word32)
    requires Proper(cache) && Replaced(cache, cache', i, name, ip, now)
    ensures Proper(cache') <==> ip != 0 && !Doubles(cache, i, name)
  {
    ReplaceKeepsDistinctIff(cache, cache', i, name, ip, now);
    assert cache'[i].valid && cache'[i].ip == ip && cache'[i].hostname == Truncated(name);
  }

  // ---------------------------------------------------------------------------
  // dns_resolve
  // ---------------------------------------------------------------------------

  /** What the queries would answer: the primary server's address, else the secondary's, else nothing. */
  function Answer(primary: Option<Word32>, hasSecondary: bool, secondary: Option<Word32>): Option<Word32> {
    if primary.Some? then primary else if hasSecondary then secondary else None
  }

  /** dns_resolve: the cache afterwards and the address returned. */
  ghost predicate Resolved(cache: seq<Entry>, cache': seq<Entry>, ip: Word32, name: Name, answer: Option<Word32>,
                           now: Word32) {
    if Lookup(cache, name) != 0 then cache' == cache && ip == Lookup(cache, name)
    else if answer.Some? then ip == answer.value && exists r :: Added(cache, cache', r, name, answer.value, now)
    else cache' == cache && ip == 0
  }

  /** Some entry other than the one to be overwritten already carries the name as it would be stored. */
  ghost predicate StoredElsewhere(cache: seq<Entry>, name: Name) {
    exists i: nat :: IsVictim(cache, i) && Doubles(cache, i, name)
  }

  /** A name that does not fit the field is cut, and then may double another entry. */
  ghost predicate CutDoubles(cache: seq<Entry>, name: Name) {
    |name| > MAX_NAME && StoredElsewhere(cache, name)
  }

  /**
    dns_resolve keeps the cache proper if and only if it does not store the address 0 and does not
    cut a name down to one that is already there.
   */
  lemma ResolveKeepsProperIff(cache: seq<Entry>, cache': seq<Entry>, ip: Word32, name: Name, answer: Option<Word32>,
                              now: Word32)
    requires Proper(cache) && Resolved(cache, cache', ip, name, answer, now)
    ensures Proper(cache') <==>
            !(Lookup(cache, name) == 0 && answer.Some? && !Stuck(cache)
                && (answer.value == 0 || CutDoubles(cache, name)))
  {
    if Lookup(cache, name) == 0 && answer.Some? {
      var r :| Added(cache, cache', r, name, answer.value, now);
      if r == 0 {
        var i: nat :| Replaced(cache, cache', i, name, answer.value, now);
        ReplaceKeepsProperIff(cache, cache', i, name, answer.value, now);
        VictimNotStuck(cache, i);
        DoublesOnlyIfCut(cache, i, name);
      }
    }
  }

  lemma VictimNotStuck(cache: seq<Entry>, i: nat)
    requires IsVictim(cache, i)
    ensures !Stuck(cache)
  {
  }

  lemma DoublesOnlyIfCut(cache: seq<Entry>, i: nat, name: Name)
    requires Proper(cache) && IsVictim(cache, i) && Lookup(cache, name) == 0
    ensures Doubles(cache, i, name) <==> CutDoubles(cache, name)
  {
    LookupZeroIff(cache, name);
    if CutDoubles(cache, name) {
      var k: nat :| IsVictim(cache, k) && Doubles(cache, k, name);
      OneVictim(cache, i, k);
    }
  }

  /**
    From any cache of distinct names dns_resolve puts a second entry of one name there if and only
    if its lookup misses, a server answers, and another entry already carries the name as stored.
   */
  lemma ResolveKeepsDistinctIff(cache: seq<Entry>, cache': seq<Entry>, ip: Word32, name: Name, answer: Option<Word32>,
                                now: Word32)
    requires Distinct(cache) && Resolved(cache, cache', ip, name, answer, now)
    ensures Distinct(cache') <==> !(Lookup(cache, name) == 0 && answer.Some? && StoredElsewhere(cache, name))
  {
    if Lookup(cache, name) == 0 && answer.Some? {
      var r :| Added(cache, cache', r, name, answer.value, now);
      if r == 0 {
        var i: nat :| Replaced(cache, cache', i, name, answer.value, now);
        ReplaceKeepsDistinctIff(cache, cache', i, name, answer.value, now);
        if StoredElsewhere(cache, name) {
          var k: nat :| IsVictim(cache, k) && Doubles(cache, k, name);
          OneVictim(cache, i, k);
        }
      } else if StoredElsewhere(cache, name) {
        var k: nat :| IsVictim(cache, k) && Doubles(cache, k, name);
        VictimNotStuck(cache, k);
      }
    }
  }

  /** Where a lookup misses although the name is stored, the entry has address 0 or the name was cut. */
  lemma MissedNameIsCutOrZero(cache: seq<Entry>, name: Name, j: nat)
    requires Distinct(cache) && j < |cache| && Holds(cache[j], Truncated(name)) && Lookup(cache, name) == 0
    ensures |name| > MAX_NAME || cache[j].ip == 0
  {
    if |name| <= MAX_NAME {
      LookupHits(cache, name, j);
    }
  }

  /**
    One name resolved twice, starting with an empty cache, is stored twice exactly when it is cut or the
    answer is 0.
   */
  lemma ResolvedTwiceDoublesIff(c0: seq<Entry>, c1: seq<Entry>, c2: seq<Entry>, name: Name, ip: Word32, now: Word32,
                                later: Word32, r1: Word32, r2: Word32)
    requires |c0| >= 2 && forall i :: 0 <= i < |c0| ==> !c0[i].valid
    requires Resolved(c0, c1, r1, name, Some(ip), now) && Resolved(c1, c2, r2, name, Some(ip), later)
    ensures Distinct(c1) && (Distinct(c2) <==> |name| <= MAX_NAME && ip != 0)
  {
    LookupMisses(c0, name);
    var e := Entry(Truncated(name), ip, now, true);
    assert c1 == c0[0 := e] by {
      var r :| Added(c0, c1, r, name, ip, now);
      assert r == 0;
    }
    assert IsVictim(c1, 1);
    ResolveKeepsDistinctIff(c1, c2, r2, name, Some(ip), later);
    if |name| <= MAX_NAME {
      LookupHits(c1, name, 0);
    } else {
      LookupMisses(c1, name);
    }
    assert Holds(c1[0], Truncated(name));
    assert Doubles(c1, 1, name);
  }

  /** Such runs exist: any name answered 0 twice, and any name of 256 characters or more. */
  lemma DoublingIsReal(c0: seq<Entry>, name: Name, ip: Word32, now: Word32, later: Word32)
    returns (c1: seq<Entry>, c2: seq<Entry>)
    requires |c0| >= 2 && forall i :: 0 <= i < |c0| ==> !c0[i].valid
    requires |name| > MAX_NAME || ip == 0
    ensures Resolved(c0, c1, ip, name, Some(ip), now) && Resolved(c1, c2, ip, name, Some(ip), later) && !Distinct(c2)
  {
    c1 := c0[0 := Entry(Truncated(name), ip, now, true)];
    c2 := c1[1 := Entry(Truncated(name), ip, later, true)];
    LookupMisses(c0, name);
    if |name| <= MAX_NAME {
      LookupHits(c1, name, 0);
    } else {
      LookupMisses(c1, name);
    }
    assert IsVictim(c0, 0) && IsVictim(c1, 1);
    assert Replaced(c0, c1, 0, name, ip, now) && Replaced(c1, c2, 1, name, ip, later);
    assert Added(c0, c1, 0, name, ip, now) && Added(c1, c2, 0, name, ip, later);
    assert c2[0].hostname == c2[1].hostname;
  }

  // ---------------------------------------------------------------------------
  // What a resolution answers
  // ---------------------------------------------------------------------------

  /** Where the lookup misses and the primary server answers, its address is returned, and no other is stored. */
  lemma PrimaryWins(cache: seq<Entry>, cache': seq<Entry>, ip: Word32, name: Name, a: Word32, hasSecondary: bool,
                    secondary: Option<Word32>, now: Word32)
    requires Resolved(cache, cache', ip, name, Answer(Some(a), hasSecondary, secondary), now)
        && Lookup(cache, name) == 0
    ensures ip == a && |cache'| == |cache|
    ensures forall i :: 0 <= i < |cache| ==> cache'[i] == cache[i] || cache'[i].ip == a
  {
  }

  /** The secondary server counts only if there is one and the primary does not answer. */
  lemma SecondaryHelps(cache: seq<Entry>, cache': seq<Entry>, ip: Word32, name: Name, hasSecondary: bool,
                       secondary: Option<Word32>, now: Word32)
    requires Resolved(cache, cache', ip, name, Answer(None, hasSecondary, secondary), now) && Lookup(cache, name) == 0
    ensures hasSecondary && secondary.Some? ==>
              ip == secondary.value && |cache'| == |cache|
              && forall i :: 0 <= i < |cache| ==> cache'[i] == cache[i] || cache'[i].ip == ip
    ensures !hasSecondary || secondary == None ==> ip == 0 && cache' == cache
  {
  }

  /** A name stored without doubling another is found by its first 255 characters. */
  lemma StoredNameIsFound(cache: seq<Entry>, cache': seq<Entry>, name: Name, ip: Word32, now: Word32)
    requires Distinct(cache) && Added(cache, cache', 0, name, ip, now) && !StoredElsewhere(cache, name)
    ensures Lookup(cache', if |name| <= 255 then name else name[..255]) == ip
  {
    var i: nat :| Replaced(cache, cache', i, name, ip, now);
    ReplaceKeepsDistinctIff(cache, cache', i, name, ip, now);
    assert Holds(cache'[i], Truncated(name));
    assert forall j :: 0 <= j < i ==> !Holds(cache'[j], Truncated(name));
    LookupHits(cache', Truncated(name), i);
  }

  /** After dns_flush_cache every lookup misses. */
  lemma FlushedMisses(cache: seq<Entry>, name: Name)
    ensures Lookup(Flushed(cache), name) == 0
  {
    LookupMisses(Flushed(cache), name);
  }

  // ---------------------------------------------------------------------------
  // How long an entry stays
  // ---------------------------------------------------------------------------

  predicate GoesBefore(cache: seq<Entry>, i: nat, j: nat)
    requires i < |cache| && j < |cache|
  {
    !cache[j].valid || cache[j].timestamp < cache[i].timestamp || (cache[j].timestamp == cache[i].timestamp && j < i)
  }

  /** The entries that are unused, or older than entry i, or as old and before it. */
  function Older(cache: seq<Entry>, i: nat): set<nat>
    requires i < |cache|
  {
    set j: nat | j < |cache| && j != i && GoesBefore(cache, i, j)
  }

  /** As long as there is such an entry one of them is overwritten, and then it is none of them any more. */
  lemma OlderGoesFirst(cache: seq<Entry>, i: nat, v: nat)
    requires i < |cache| && cache[i].valid && IsVictim(cache, v)
    ensures if Older(cache, i) == {} then v == i else v in Older(cache, i)
  {
    assert v != i && GoesBefore(cache, i, v) ==> v in Older(cache, i);
    if Older(cache, i) != {} {
      var j: nat :| j in Older(cache, i);
      assert GoesBefore(cache, i, j);
    }
  }

  lemma AdditionMakesNewer(cache: seq<Entry>, cache': seq<Entry>, r: int, name: Name, ip: Word32, now: Word32, i: nat)
    requires i < |cache| && cache[i].valid && cache[i].timestamp < now
    requires Added(cache, cache', r, name, ip, now)
    ensures r == 0 && |cache'| == |cache|
    ensures Older(cache, i) == {} ==> cache'[i] == Entry(Truncated(name), ip, now, true)
    ensures Older(cache, i) != {} ==> cache'[i] == cache[i] && |Older(cache', i)| == |Older(cache, i)| - 1
  {
    assert !Stuck(cache);
    var v: nat :| Replaced(cache, cache', v, name, ip, now);
    OlderGoesFirst(cache, i, v);
    if Older(cache, i) != {} {
      forall j: nat | j < |cache| ensures j in Older(cache', i) <==> j in Older(cache, i) && j != v {
        assert j != v ==> GoesBefore(cache', i, j) == GoesBefore(cache, i, j);
      }
      assert Older(cache', i) == Older(cache, i) - {v};
    }
  }

  /** The caches of a run of additions, made at times later than `after`. */
  ghost predicate AreAdditions(caches: seq<seq<Entry>>, after: Word32) {
    && caches != []
    && forall k :: 0 <= k < |caches| - 1 ==> AddedLater(caches[k], caches[k + 1], after)
  }

  ghost predicate AddedLater(cache: seq<Entry>, cache': seq<Entry>, after: Word32) {
    exists r, name, ip, now: Word32 :: now > after && Added(cache, cache', r, name, ip, now)
  }

  /**
    First in, first out: under a clock that has moved on, a valid entry survives a run of additions if and
    only if there are no more of them than entries unused, older, or as old and before it.
   */
  lemma {:induction false} SurvivesIff(caches: seq<seq<Entry>>, i: nat)
    requires caches != [] && i < |caches[0]| && caches[0][i].valid
    requires AreAdditions(caches, caches[0][i].timestamp)
    ensures var n := |caches| - 1;
            && |caches[n]| == |caches[0]|
            && (n <= |Older(caches[0], i)| ==> caches[n][i] == caches[0][i])
            && (n > |Older(caches[0], i)| ==> caches[n][i].timestamp > caches[0][i].timestamp)
    decreases |caches|
  {
    if |caches| > 1 {
      var t := caches[0][i].timestamp;
      assert AddedLater(caches[0], caches[1], t);
      var r, name, ip, now: Word32 :| now > t && Added(caches[0], caches[1], r, name, ip, now);
      AdditionMakesNewer(caches[0], caches[1], r, name, ip, now, i);
      var rest := caches[1..];
      forall k | 0 <= k < |rest| - 1 ensures AddedLater(rest[k], rest[k + 1], t) {
        assert AddedLater(caches[k + 1], caches[k + 2], t);
      }
      if Older(caches[0], i) != {} {
        SurvivesIff(rest, i);
      } else {
        NewStaysNew(rest, i, t);
      }
    }
  }

  lemma {:induction false} NewStaysNew(caches: seq<seq<Entry>>, i: nat, after: Word32)
    requires AreAdditions(caches, after) && i < |caches[0]| && caches[0][i].timestamp > after
    ensures |caches[|caches| - 1]| == |caches[0]| && caches[|caches| - 1][i].timestamp > after
  {
    if |caches| > 1 {
      assert AddedLater(caches[0], caches[1], after);
      var rest := caches[1..];
      forall k | 0 <= k < |rest| - 1 ensures AddedLater(rest[k], rest[k + 1], after) {
        assert AddedLater(caches[k + 1], caches[k + 2], after);
      }
      NewStaysNew(rest, i, after);
    }
  }

  // ---------------------------------------------------------------------------
  // Whole runs
  // ---------------------------------------------------------------------------

  /** The cache with its history: for each name the address last stored for it. */
  datatype History = History(cache: seq<Entry>, stored: map<Name, Word32>)

  datatype Op = Resolve(name: Name, answer: Option<Word32>, now: Word32) | Flush

  /** The call gets an answer that dns_cache_add has room for. */
  ghost predicate Stores(h: History, op: Op) {
    op.Resolve? && Lookup(h.cache, op.name) == 0 && op.answer.Some? && !Stuck(h.cache)
  }

  ghost predicate Steps(h: History, h': History, op: Op) {
    match op
    case Resolve(name, answer, now) =>
      && (exists ip :: Resolved(h.cache, h'.cache, ip, name, answer, now))
      && h'.stored == if Stores(h, op) then h.stored[name := answer.value] else h.stored
    case Flush => h' == h.(cache := Flushed(h.cache))
  }

  /** The caller's side of the bargain: names fit the field, and no server answers 0. */
  predicate Reasonable(op: Op) {
    op.Resolve? ==> |op.name| <= MAX_NAME && (op.answer.Some? ==> op.answer.value != 0)
  }

  ghost predicate IsRun(hs: seq<History>, ops: seq<Op>) {
    && |hs| == |ops| + 1
    && (forall i :: 0 <= i < |hs[0].cache| ==> !hs[0].cache[i].valid)
    && (forall i :: 0 <= i < |ops| ==> Steps(hs[i], hs[i + 1], ops[i]))
  }

  /** The cache is proper and every valid entry carries the address last stored for its name. */
  ghost predicate Agrees(h: History) {
    && Proper(h.cache)
    && (forall i :: 0 <= i < |h.cache| && h.cache[i].valid ==>
          h.cache[i].hostname in h.stored && h.stored[h.cache[i].hostname] == h.cache[i].ip)
  }

  lemma StepAgrees(h: History, h': History, op: Op)
    requires Agrees(h) && Steps(h, h', op) && Reasonable(op)
    ensures Agrees(h')
  {
    if op.Resolve? {
      var ip :| Resolved(h.cache, h'.cache, ip, op.name, op.answer, op.now);
      ResolveKeepsProperIff(h.cache, h'.cache, ip, op.name, op.answer, op.now);
      if Lookup(h.cache, op.name) == 0 && op.answer.Some? {
        var r :| Added(h.cache, h'.cache, r, op.name, op.answer.value, op.now);
        if r == 0 {
          var i: nat :| Replaced(h.cache, h'.cache, i, op.name, op.answer.value, op.now);
          VictimNotStuck(h.cache, i);
          LookupZeroIff(h.cache, op.name);
          forall j | 0 <= j < |h.cache| && j != i && h.cache[j].valid ensures h'.cache[j].hostname != op.name {
            assert !Holds(h.cache[j], op.name);
          }
        }
      }
    }
  }

  /**
    Over every run of dns_resolve and dns_flush_cache from an empty cache, with names under 256
    characters and no answer 0: valid entries have pairwise distinct names, and a lookup gives the
    address last stored for the name, or a miss.
   */
  lemma {:induction false} CacheAgreesWithMap(hs: seq<History>, ops: seq<Op>, name: Name)
    requires IsRun(hs, ops) && forall i :: 0 <= i < |ops| ==> Reasonable(ops[i])
    ensures var h := hs[|ops|];
            && Agrees(h)
            && (Lookup(h.cache, name) == 0 || (name in h.stored && Lookup(h.cache, name) == h.stored[name]))
  {
    var n := |ops|;
    if n > 0 {
      assert IsRun(hs[..n], ops[..n - 1]);
      CacheAgreesWithMap(hs[..n], ops[..n - 1], name);
      StepAgrees(hs[n - 1], hs[n], ops[n - 1]);
    }
    LookupZeroIff(hs[n].cache, name);
  }

  // ---------------------------------------------------------------------------
  // The resolver object
  // ---------------------------------------------------------------------------

  class DnsResolver {
    const cache: array<Entry>
    var secondaryServer: Word32

    ghost predicate Valid() {
      cache.Length == ENTRIES
    }

    /** dns_init */
    constructor ()
      ensures Valid() && fresh(cache) && secondaryServer == 0x04040808
      ensures forall i :: 0 <= i < cache.Length ==> !cache[i].valid
    {
      cache := new Entry[ENTRIES](_ => Entry([], 0, 0, false));
      secondaryServer := 0x04040808;
    }

    method CacheLookup(hostname: Name) returns (ip: Word32)
      requires Valid()
      ensures ip == Lookup(cache[..], hostname)
    {
      assert cache[0..] == cache[..];
      for i := 0 to ENTRIES
        invariant Lookup(cache[i..], hostname) == Lookup(cache[..], hostname)
      {
        assert cache[i..][1..] == cache[i + 1..] && cache[i..][0] == cache[i];
        if cache[i].valid && cache[i].hostname == hostname {
          return cache[i].ip;
        }
      }
      return 0;
    }

    method CacheAdd(hostname: Name, ip: Word32, now: Word32) returns (r: int)
      requires Valid()
      modifies cache
      ensures Added(old(cache[..]), cache[..], r, hostname, ip, now)
    {
      var oldestIdx: int := -1;
      var oldestTime: Word32 := UINT32_MAX;
      for i := 0 to ENTRIES
        invariant -1 <= oldestIdx < i
        invariant forall j :: 0 <= j < i ==> cache[j].valid && oldestTime <= cache[j].timestamp
        invariant if oldestIdx == -1 then oldestTime == UINT32_MAX
                  else oldestTime == cache[oldestIdx].timestamp < UINT32_MAX
                       && forall j :: 0 <= j < oldestIdx ==> oldestTime < cache[j].timestamp
      {
        if !cache[i].valid {
          oldestIdx := i;
          break;
        }
        if cache[i].timestamp < oldestTime {
          oldestIdx := i;
          oldestTime := cache[i].timestamp;
        }
      }
      if oldestIdx == -1 {
        return -1;
      }
      assert IsVictim(cache[..], oldestIdx);
      ghost var before := cache[..];
      cache[oldestIdx] := Entry(Truncated(hostname), ip, now, true);
      assert Replaced(before, cache[..], oldestIdx, hostname, ip, now);
      return 0;
    }

    method FlushCache()
      requires Valid()
      modifies cache
      ensures cache[..] == Flushed(old(cache[..]))
    {
      for i := 0 to ENTRIES
        invariant forall j :: 0 <= j < ENTRIES ==>
          cache[j] == if j < i then old(cache[j]).(valid := false, hostname := []) else old(cache[j])
      {
        cache[i] := cache[i].(valid := false, hostname := []);
      }
    }

    /** dns_resolve, with what each server would answer as parameters. */
    method Resolve(hostname: Name, primary: Option<Word32>, secondary: Option<Word32>, now: Word32) returns (ip: Word32)
      requires Valid()
      modifies cache
      ensures Resolved(old(cache[..]), cache[..], ip, hostname, Answer(primary, secondaryServer != 0, secondary), now)
    {
      var cachedIp := CacheLookup(hostname);
      if cachedIp != 0 {
        return cachedIp;
      }
      if primary.Some? {
        var r := CacheAdd(hostname, primary.value, now);
        return primary.value;
      }
      if secondaryServer != 0 {
        if secondary.Some? {
          var r := CacheAdd(hostname, secondary.value, now);
          return secondary.value;
        }
      }
      return 0;
    }
  }
}
