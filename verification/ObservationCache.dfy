/** The bounded cache of semantic observations
    (crates/folk-computer-use/src/praefectus_adapter.rs), against the history it forgets. */
module ObservationCache {
  import opened Wrappers

  const MAX_CACHED_OBSERVATIONS: nat := 8

  /** document stands for everything else an observation records. */
  datatype Observation = Observation(id: string, expiresAtMs: int, document: string)

  function Keep(s: seq<Observation>, p: Observation -> bool): (r: seq<Observation>)
    ensures |r| <= |s|
    ensures forall x :: x in r ==> x in s && p(x)
  {
    if s == [] then []
    else if p(s[0]) then [s[0]] + Keep(s[1..], p)
    else Keep(s[1..], p)
  }

  function LastOf(s: seq<Observation>, n: nat): seq<Observation> {
    if |s| <= n then s else s[|s| - n..]
  }

  lemma LastOfExactly(s: seq<Observation>, n: nat)
    ensures |LastOf(s, n)| == (if |s| < n then |s| else n) && LastOf(s, n) <= s[|s| - |LastOf(s, n)|..]
  {
  }

  /** The two retains of an insertion: drop what has expired, and any version of the new id. */
  function Stays(o: Observation, now: int): Observation -> bool {
    (x: Observation) => x.expiresAtMs > now && x.id != o.id
  }

  function Unexpired(now: int): Observation -> bool {
    (x: Observation) => x.expiresAtMs > now
  }

  function OtherThan(o: Observation): Observation -> bool {
    (x: Observation) => x.id != o.id
  }

  function Insert(cache: seq<Observation>, o: Observation, now: int): seq<Observation> {
    LastOf(Keep(cache, Stays(o, now)) + [o], MAX_CACHED_OBSERVATIONS)
  }

  lemma {:induction false} KeepTwice(s: seq<Observation>, now: int, o: Observation)
    ensures Keep(Keep(s, Unexpired(now)), OtherThan(o)) == Keep(s, Stays(o, now))
  {
    if s != [] {
      KeepTwice(s[1..], now, o);
      if s[0].expiresAtMs > now {
        var rest := Keep(s[1..], Unexpired(now));
        assert ([s[0]] + rest)[1..] == rest;
      }
    }
  }

  /** Observation::validate at a clock reading, and Observation::target on a tag. */
  class Cache<Target> {
    const validate: (Observation, int) -> bool
    const target: (Observation, string) -> Option<Target>
    var observations: seq<Observation>

    constructor (validate: (Observation, int) -> bool, target: (Observation, string) -> Option<Target>)
      ensures observations == [] && this.validate == validate && this.target == target
    {
      this.validate, this.target, observations := validate, target, [];
    }

    /** cache_observation, with its two clock readings. */
    method CacheObservation(o: Observation, validatedAt: int, now: int) returns (ok: bool)
      modifies this
      ensures ok == validate(o, validatedAt)
      ensures observations == if ok then Insert(old(observations), o, now) else old(observations)
    {
      if !validate(o, validatedAt) {
        return false;
      }
      KeepTwice(observations, now, o);
      observations := Keep(observations, Unexpired(now));
      observations := Keep(observations, OtherThan(o));
      observations := observations + [o];
      while |observations| > MAX_CACHED_OBSERVATIONS
        invariant LastOf(observations, MAX_CACHED_OBSERVATIONS) == Insert(old(observations), o, now)
        decreases |observations|
      {
        observations := observations[1..];
      }
      return true;
    }

    /** cached_target: the target and the deadline of the action. */
    method CachedTarget(id: string, tag: string, now: int) returns (r: Option<(Target, int)>)
      ensures r == Lookup(validate, target, observations, id, tag, now)
    {
      var i := 0;
      while i < |observations| && observations[i].id != id
        invariant 0 <= i <= |observations|
        invariant Find(observations[i..], id) == Find(observations, id)
      {
        i := i + 1;
      }
      if i == |observations| || !validate(observations[i], now) {
        return None;
      }
      var found := target(observations[i], tag);
      if found == None {
        return None;
      }
      return Some((found.value, observations[i].expiresAtMs));
    }
  }

  function Find(cache: seq<Observation>, id: string): (r: Option<Observation>)
    ensures r.Some? ==> r.value in cache && r.value.id == id
    ensures r.None? ==> forall x :: x in cache ==> x.id != id
  {
    if cache == [] then None
    else if cache[0].id == id then Some(cache[0])
    else Find(cache[1..], id)
  }

  function Lookup<Target>(
    validate: (Observation, int) -> bool, target: (Observation, string) -> Option<Target>,
    cache: seq<Observation>, id: string, tag: string, now: int): Option<(Target, int)>
  {
    match Find(cache, id)
    case None => None
    case Some(o) =>
      if !validate(o, now) then None
      else
        match target(o, tag)
        case None => None
        case Some(t) => Some((t, o.expiresAtMs))
  }

  // Histories: the observations accepted so far, oldest first, each with the clock reading of
  // its insertion.

  datatype Insertion = Insertion(o: Observation, now: int)

  function CacheAfter(h: seq<Insertion>): seq<Observation> {
    if h == [] then []
    else Insert(CacheAfter(h[..|h| - 1]), h[|h| - 1].o, h[|h| - 1].now)
  }

  predicate Latest(h: seq<Insertion>, i: nat)
    requires i < |h|
  {
    forall j :: i < j < |h| ==> h[j].o.id != h[i].o.id
  }

  /** Entry i is the latest version of its id, and was unexpired at every later insertion. */
  predicate Survives(h: seq<Insertion>, i: nat)
    requires i < |h|
  {
    Latest(h, i) && forall j :: i < j < |h| ==> h[i].o.expiresAtMs > h[j].now
  }

  /** The surviving entries from index i on, in insertion order. */
  function SurvivorsFrom(h: seq<Insertion>, i: nat): seq<Observation>
    requires i <= |h|
    decreases |h| - i
  {
    if i == |h| then []
    else (if Survives(h, i) then [h[i].o] else []) + SurvivorsFrom(h, i + 1)
  }

  function Survivors(h: seq<Insertion>): seq<Observation> {
    SurvivorsFrom(h, 0)
  }

  ghost predicate ExpiryMonotone(h: seq<Insertion>) {
    forall i, j :: 0 <= i < j < |h| ==> h[i].o.expiresAtMs <= h[j].o.expiresAtMs
  }

  lemma {:induction false} KeepConcat(a: seq<Observation>, b: seq<Observation>, p: Observation -> bool)
    ensures Keep(a + b, p) == Keep(a, p) + Keep(b, p)
  {
    if a == [] {
      assert a + b == b;
    } else {
      assert (a + b)[0] == a[0] && (a + b)[1..] == a[1..] + b;
      KeepConcat(a[1..], b, p);
    }
  }

  lemma KeepCons(x: Observation, rest: seq<Observation>, p: Observation -> bool)
    ensures Keep([x] + rest, p) == (if p(x) then [x] else []) + Keep(rest, p)
    ensures Keep([], p) == []
  {
    assert ([x] + rest)[1..] == rest;
  }

  lemma SurvivesStep(h: seq<Insertion>, e: Insertion, i: nat)
    requires i < |h|
    ensures Survives(h + [e], i) <==> Survives(h, i) && Stays(e.o, e.now)(h[i].o)
  {
    var h' := h + [e];
    assert h'[|h|] == e && forall j :: 0 <= j < |h| ==> h'[j] == h[j];
  }

  /** One more insertion filters the survivors and adds the new observation. */
  lemma {:induction false} SurvivorsStep(h: seq<Insertion>, e: Insertion, i: nat)
    requires i <= |h|
    ensures SurvivorsFrom(h + [e], i) == Keep(SurvivorsFrom(h, i), Stays(e.o, e.now)) + [e.o]
    decreases |h| - i
  {
    hide Keep, Stays, Survives;
    var h' := h + [e];
    if i == |h| {
      assert Survives(h', |h|) by { LastSurvives(h, e); }
      assert SurvivorsFrom(h', i + 1) == [];
      KeepCons(e.o, [], Stays(e.o, e.now));
    } else {
      SurvivorsStep(h, e, i + 1);
      SurvivesStep(h, e, i);
      var rest := SurvivorsFrom(h, i + 1);
      KeepCons(h[i].o, rest, Stays(e.o, e.now));
      assert h'[i] == h[i];
      assert [] + rest == rest;
      var kept := Keep(SurvivorsFrom(h, i), Stays(e.o, e.now));
      assert kept == (if Survives(h', i) then [h[i].o] else []) + Keep(rest, Stays(e.o, e.now));
    }
  }

  lemma LastSurvives(h: seq<Insertion>, e: Insertion)
    ensures Survives(h + [e], |h|)
  {
  }

  lemma LastOfConcat(a: seq<Observation>, b: seq<Observation>, o: Observation)
    ensures LastOf(b + [o], MAX_CACHED_OBSERVATIONS) == LastOf(a + b + [o], MAX_CACHED_OBSERVATIONS)
            <==> |b| >= MAX_CACHED_OBSERVATIONS - 1 || a == []
  {
    if |b| < MAX_CACHED_OBSERVATIONS - 1 {
      if a == [] {
        assert a + b == b;
      } else {
        assert |LastOf(a + b + [o], MAX_CACHED_OBSERVATIONS)| > |b| + 1;
      }
    }
  }

  /** Of the last 8 survivors 7 stay, or no survivor before them does. */
  predicate KeepsLast(s: seq<Observation>, o: Observation, now: int) {
    var cached := LastOf(s, MAX_CACHED_OBSERVATIONS);
    var older := s[..|s| - |cached|];
    |Keep(cached, Stays(o, now))| >= MAX_CACHED_OBSERVATIONS - 1 || Keep(older, Stays(o, now)) == []
  }

  /** A cache that held the last 8 survivors still does after an insertion exactly then. */
  lemma InsertAgrees(s: seq<Observation>, o: Observation, now: int)
    ensures Insert(LastOf(s, MAX_CACHED_OBSERVATIONS), o, now)
            == LastOf(Keep(s, Stays(o, now)) + [o], MAX_CACHED_OBSERVATIONS)
            <==> KeepsLast(s, o, now)
  {
    hide Keep, Stays;
    var cached := LastOf(s, MAX_CACHED_OBSERVATIONS);
    var older := s[..|s| - |cached|];
    assert s == older + cached;
    KeepConcat(older, cached, Stays(o, now));
    LastOfConcat(Keep(older, Stays(o, now)), Keep(cached, Stays(o, now)), o);
  }

  predicate HoldsLast(h: seq<Insertion>) {
    CacheAfter(h) == LastOf(Survivors(h), MAX_CACHED_OBSERVATIONS)
  }

  predicate KeepsAt(h: seq<Insertion>, n: nat)
    requires n < |h|
  {
    KeepsLast(Survivors(h[..n]), h[n].o, h[n].now)
  }

  lemma HoldsStep(h: seq<Insertion>, n: nat)
    requires n < |h| && HoldsLast(h[..n])
    ensures HoldsLast(h[..n + 1]) <==> KeepsAt(h, n)
  {
    hide KeepsLast, SurvivorsFrom, Insert, LastOf, Keep, Stays;
    assert h[..n + 1] == h[..n] + [h[n]] && h[..n + 1][..n] == h[..n];
    SurvivorsStep(h[..n], h[n], 0);
    InsertAgrees(Survivors(h[..n]), h[n].o, h[n].now);
  }

  lemma {:induction false} HoldsAfter(h: seq<Insertion>, n: nat)
    requires n <= |h| && forall k: nat :: k < n ==> KeepsAt(h, k)
    ensures HoldsLast(h[..n])
  {
    if n > 0 {
      HoldsAfter(h, n - 1);
      HoldsStep(h, n - 1);
    }
  }

  /** Whatever the clock and the expiry times do: the cache is the last 8 survivors throughout
      a history exactly when every insertion finds survivors of which it keeps the last. */
  lemma AgreesExactly(h: seq<Insertion>)
    ensures (forall n: nat :: n <= |h| ==> HoldsLast(h[..n])) <==> (forall n: nat :: n < |h| ==> KeepsAt(h, n))
  {
    hide HoldsLast, KeepsAt;
    if forall n: nat :: n < |h| ==> KeepsAt(h, n) {
      forall n: nat | n <= |h|
        ensures HoldsLast(h[..n])
      {
        HoldsAfter(h, n);
      }
    }
    if forall n: nat :: n <= |h| ==> HoldsLast(h[..n]) {
      forall n: nat | n < |h|
        ensures KeepsAt(h, n)
      {
        assert HoldsLast(h[..n + 1]);
        HoldsStep(h, n);
      }
    }
  }

  // Survivors have distinct ids, and expire in order when insertions do.

  /** The entries are those of the history at these indices, in order. */
  ghost predicate IndexedBy(h: seq<Insertion>, i: nat, s: seq<Observation>, at: seq<nat>) {
    && |at| == |s|
    && (forall k :: 0 <= k < |at| ==> i <= at[k] < |h| && Survives(h, at[k]) && h[at[k]].o == s[k])
    && (forall j, k :: 0 <= j < k < |at| ==> at[j] < at[k])
  }

  lemma IndexedCons(h: seq<Insertion>, i: nat, s: seq<Observation>, at: seq<nat>)
    requires i < |h| && Survives(h, i) && IndexedBy(h, i + 1, s, at)
    ensures IndexedBy(h, i, [h[i].o] + s, [i] + at)
  {
    hide Survives;
  }

  lemma {:induction false} SurvivorsIndexed(h: seq<Insertion>, i: nat) returns (at: seq<nat>)
    requires i <= |h|
    ensures IndexedBy(h, i, SurvivorsFrom(h, i), at)
    decreases |h| - i
  {
    hide Survives;
    if i == |h| {
      at := [];
    } else {
      at := SurvivorsIndexed(h, i + 1);
      var rest := SurvivorsFrom(h, i + 1);
      if Survives(h, i) {
        IndexedCons(h, i, rest, at);
        at := [i] + at;
      } else {
        assert [] + rest == rest;
      }
    }
  }

  ghost predicate DistinctIds(s: seq<Observation>) {
    forall j, k :: 0 <= j < k < |s| ==> s[j].id != s[k].id
  }

  ghost predicate ExpiryOrdered(s: seq<Observation>) {
    forall j, k :: 0 <= j < k < |s| ==> s[j].expiresAtMs <= s[k].expiresAtMs
  }

  lemma SurvivorsShape(h: seq<Insertion>)
    ensures DistinctIds(Survivors(h))
    ensures ExpiryMonotone(h) ==> ExpiryOrdered(Survivors(h))
  {
    var at := SurvivorsIndexed(h, 0);
  }

  /** At most one of several distinct ids is the new one. */
  lemma {:induction false} OneIdLeaves(s: seq<Observation>, o: Observation, now: int)
    requires DistinctIds(s) && forall k :: 0 <= k < |s| ==> s[k].expiresAtMs > now
    ensures |Keep(s, Stays(o, now))| >= |s| - (if exists k :: 0 <= k < |s| && s[k].id == o.id then 1 else 0)
  {
    if s != [] {
      OneIdLeaves(s[1..], o, now);
      if s[0].id == o.id {
        assert forall k :: 0 <= k < |s[1..]| ==> s[1..][k] == s[k + 1] && s[1..][k].id != o.id;
      } else if exists k :: 0 <= k < |s[1..]| && s[1..][k].id == o.id {
        var k :| 0 <= k < |s[1..]| && s[1..][k].id == o.id;
        assert s[k + 1].id == o.id;
      }
    }
  }

  lemma {:induction false} ExpiredLeave(s: seq<Observation>, o: Observation, now: int)
    requires forall k :: 0 <= k < |s| ==> s[k].expiresAtMs <= now
    ensures Keep(s, Stays(o, now)) == []
  {
    if s != [] {
      ExpiredLeave(s[1..], o, now);
    }
  }

  /** With expiry times in insertion order every insertion keeps the last survivors. */
  lemma OrderedKeepsLast(s: seq<Observation>, o: Observation, now: int)
    requires DistinctIds(s) && ExpiryOrdered(s)
    ensures KeepsLast(s, o, now)
  {
    hide Keep, Stays, DistinctIds, ExpiryOrdered;
    if |s| > MAX_CACHED_OBSERVATIONS {
      var m := |s| - MAX_CACHED_OBSERVATIONS;
      SplitOrdered(s, m);
      if s[m].expiresAtMs > now {
        OneIdLeaves(s[m..], o, now);
      } else {
        ExpiredLeave(s[..m], o, now);
      }
    } else {
      assert s[..0] == [];
      KeepCons(o, [], Stays(o, now));
    }
  }

  lemma SplitOrdered(s: seq<Observation>, m: nat)
    requires DistinctIds(s) && ExpiryOrdered(s) && m < |s|
    ensures DistinctIds(s[m..])
    ensures forall k :: 0 <= k < |s[m..]| ==> s[m..][k].expiresAtMs >= s[m].expiresAtMs
    ensures forall k :: 0 <= k < |s[..m]| ==> s[..m][k].expiresAtMs <= s[m].expiresAtMs
  {
  }

  /** With expiry times that never decrease from one insertion to the next, the cache is always
      the last 8 survivors of the whole history, whatever the clock does. */
  lemma CacheIsLastSurvivors(h: seq<Insertion>)
    requires ExpiryMonotone(h)
    ensures CacheAfter(h) == LastOf(Survivors(h), MAX_CACHED_OBSERVATIONS)
  {
    hide KeepsLast, Survivors, CacheAfter;
    forall n: nat | n < |h|
      ensures KeepsAt(h, n)
    {
      SurvivorsShape(h[..n]);
      OrderedKeepsLast(Survivors(h[..n]), h[n].o, h[n].now);
    }
    AgreesExactly(h);
    assert h[..|h|] == h;
    assert HoldsLast(h[..|h|]);
  }

  // Survivors judged by the last reading alone.

  /** Entry i is the latest version of its id, and is unexpired at the last insertion. */
  predicate UnexpiredNow(h: seq<Insertion>, i: nat)
    requires i < |h|
  {
    Latest(h, i) && (i == |h| - 1 || h[i].o.expiresAtMs > h[|h| - 1].now)
  }

  function WithExpiry(h: seq<Insertion>, i: nat, expiry: int): seq<Insertion>
    requires i < |h|
  {
    h[i := h[i].(o := h[i].o.(expiresAtMs := expiry))]
  }

  /** The last reading decides, whatever the expiry time of an entry, exactly when no reading
      after the entry's own exceeds the last. */
  lemma LastReadingDecides(h: seq<Insertion>, i: nat)
    requires i < |h| && Latest(h, i)
    ensures (forall e :: var h' := WithExpiry(h, i, e); Survives(h', i) <==> UnexpiredNow(h', i))
            <==> forall j :: i < j < |h| ==> h[j].now <= h[|h| - 1].now
  {
    forall e
      ensures var h' := WithExpiry(h, i, e); Latest(h', i) && h'[i].o.expiresAtMs == e
    {
      assert forall j :: 0 <= j < |h| && j != i ==> WithExpiry(h, i, e)[j] == h[j];
    }
    if j :| i < j < |h| && h[j].now > h[|h| - 1].now {
      var h' := WithExpiry(h, i, h[j].now);
      assert h'[j] == h[j] && h'[|h| - 1] == h[|h| - 1];
      assert UnexpiredNow(h', i) && !Survives(h', i);
    }
  }

  ghost predicate ClockMonotone(h: seq<Insertion>) {
    forall i, j :: 0 <= i < j < |h| ==> h[i].now <= h[j].now
  }

  /** In particular under a clock that never runs back. */
  lemma MonotoneDecides(h: seq<Insertion>, i: nat)
    requires i < |h| && ClockMonotone(h)
    ensures Survives(h, i) <==> UnexpiredNow(h, i)
  {
    if Latest(h, i) {
      LastReadingDecides(h, i);
      assert WithExpiry(h, i, h[i].o.expiresAtMs) == h;
    }
  }

  /** A clock that runs back: an observation dropped as expired is unexpired by the last
      reading, although expiry times are in order and the cache has room. */
  const CLOCK_SET_BACK := [
    Insertion(Observation("a", 100, ""), 0),
    Insertion(Observation("b", 300, ""), 200),
    Insertion(Observation("c", 300, ""), 50)]

  lemma LastReadingMisses()
    ensures var h := CLOCK_SET_BACK;
            && ExpiryMonotone(h) && UnexpiredNow(h, 0)
            && CacheAfter(h) == [h[1].o, h[2].o]
  {
    var h := CLOCK_SET_BACK;
    var a, b, c := h[0].o, h[1].o, h[2].o;
    assert h[..2][..1] == h[..1] && h[..2][1] == h[1] && h[..1][0] == h[0] && h[..1][..0] == [];
    assert CacheAfter(h[..1]) == [a] by {
      assert Keep([], Stays(a, 0)) + [a] == [a];
    }
    assert CacheAfter(h[..2]) == [b] by {
      assert Keep([a], Stays(b, 200)) == [];
      assert [] + [b] == [b];
    }
    assert Keep([b], Stays(c, 50)) == [b];
    assert [b] + [c] == [b, c];
  }

  // A cache that is not the last 8 survivors.

  /** A long-lived observation, eight short-lived ones, and one that comes after these expired. */
  const SHORT_LIVED: seq<Insertion> :=
    seq(10, i requires 0 <= i < 10 => Insertion(
      Observation([('0' as int + i) as char], if i == 0 || i == 9 then 1000 else 100, ""), if i == 9 then 200 else 0))

  lemma {:induction false} AllSurvive(h: seq<Insertion>, i: nat)
    requires i <= |h| && forall k: nat :: k < |h| ==> Survives(h, k)
    ensures |SurvivorsFrom(h, i)| == |h| - i
    ensures forall k :: 0 <= k < |h| - i ==> SurvivorsFrom(h, i)[k] == h[i + k].o
    decreases |h| - i
  {
    hide Survives;
    if i < |h| {
      AllSurvive(h, i + 1);
      var rest := SurvivorsFrom(h, i + 1);
      assert SurvivorsFrom(h, i) == [h[i].o] + rest;
      hide SurvivorsFrom;
      assert forall k :: 0 < k < |h| - i ==> ([h[i].o] + rest)[k] == rest[k - 1];
    }
  }

  /** Some insertion of that history does not keep the last survivors: the eight that had pushed
      the first one out expire, and it does not come back. */
  lemma EvictedSurvivor()
    ensures var h := SHORT_LIVED; Survives(h, 0) && !KeepsAt(h, 9) && exists n: nat :: n <= 10 && !HoldsLast(h[..n])
  {
    var h := SHORT_LIVED;
    var before, last := h[..9], h[9];
    forall k: nat | k < 9
      ensures Survives(before, k)
    {
    }
    AllSurvive(before, 0);
    var s := Survivors(before);
    var cached, older := LastOf(s, MAX_CACHED_OBSERVATIONS), s[..1];
    assert forall k :: 0 <= k < |cached| ==> cached[k] == h[k + 1].o;
    ExpiredLeave(cached, last.o, last.now);
    assert Keep(older, Stays(last.o, last.now)) != [] by {
      KeepCons(h[0].o, [], Stays(last.o, last.now));
      assert older == [h[0].o] + [];
    }
    AgreesExactly(h);
  }

  // Whatever the clock and the expiry times do.

  /** Where the latest version of an id is; |h| when there is none. */
  function LastIndex(h: seq<Insertion>, id: string): (i: nat)
    ensures i <= |h|
    ensures i < |h| ==> h[i].o.id == id && Latest(h, i)
    ensures i == |h| ==> forall j :: 0 <= j < |h| ==> h[j].o.id != id
  {
    if h == [] then 0
    else if h[|h| - 1].o.id == id then |h| - 1
    else
      var i := LastIndex(h[..|h| - 1], id);
      if i == |h| - 1 then |h| else i
  }

  /** The cached entries are latest versions, in insertion order. */
  ghost predicate Placed(h: seq<Insertion>, s: seq<Observation>) {
    && (forall k :: 0 <= k < |s| ==> LastIndex(h, s[k].id) < |h| && h[LastIndex(h, s[k].id)].o == s[k])
    && (forall j, k :: 0 <= j < k < |s| ==> LastIndex(h, s[j].id) < LastIndex(h, s[k].id))
  }

  ghost predicate PlacedAt(h: seq<Insertion>, x: Observation) {
    LastIndex(h, x.id) < |h| && h[LastIndex(h, x.id)].o == x
  }

  lemma PlacedTail(h: seq<Insertion>, s: seq<Observation>)
    requires Placed(h, s) && s != []
    ensures PlacedAt(h, s[0]) && Placed(h, s[1..])
    ensures forall x :: x in s[1..] ==> LastIndex(h, s[0].id) < LastIndex(h, x.id)
  {
    hide LastIndex;
  }

  lemma PlacedCons(h: seq<Insertion>, x: Observation, rest: seq<Observation>)
    requires PlacedAt(h, x) && Placed(h, rest)
    requires forall k :: 0 <= k < |rest| ==> LastIndex(h, x.id) < LastIndex(h, rest[k].id)
    ensures Placed(h, [x] + rest)
  {
    hide LastIndex;
  }

  lemma {:induction false} KeepPlaced(h: seq<Insertion>, s: seq<Observation>, p: Observation -> bool)
    requires Placed(h, s)
    ensures Placed(h, Keep(s, p))
  {
    hide LastIndex, Placed;
    if s != [] {
      PlacedTail(h, s);
      KeepPlaced(h, s[1..], p);
      var rest := Keep(s[1..], p);
      assert forall k :: 0 <= k < |rest| ==> rest[k] in rest;
      PlacedCons(h, s[0], rest);
    }
  }

  lemma PlacedStep(h: seq<Insertion>, e: Insertion, s: seq<Observation>)
    requires Placed(h, s) && forall k :: 0 <= k < |s| ==> s[k].id != e.o.id
    ensures Placed(h + [e], s + [e.o])
  {
    var h', s' := h + [e], s + [e.o];
    assert h'[..|h'| - 1] == h;
    assert forall k :: 0 <= k < |s| ==> LastIndex(h', s[k].id) == LastIndex(h, s[k].id);
    assert LastIndex(h', e.o.id) == |h|;
  }

  lemma PlacedLast(h: seq<Insertion>, s: seq<Observation>, n: nat)
    requires Placed(h, s)
    ensures Placed(h, LastOf(s, n))
  {
  }

  lemma {:induction false} CachePlaced(h: seq<Insertion>)
    ensures Placed(h, CacheAfter(h))
    decreases |h|
  {
    hide LastIndex;
    if h != [] {
      var before, e := h[..|h| - 1], h[|h| - 1];
      assert h == before + [e];
      CachePlaced(before);
      KeepPlaced(before, CacheAfter(before), Stays(e.o, e.now));
      var kept := Keep(CacheAfter(before), Stays(e.o, e.now));
      assert forall k :: 0 <= k < |kept| ==> kept[k] in kept;
      PlacedStep(before, e, kept);
      PlacedLast(h, kept + [e.o], MAX_CACHED_OBSERVATIONS);
    }
  }

  lemma SurvivesKept(h: seq<Insertion>, e: Insertion, x: Observation)
    requires x.expiresAtMs > e.now && x.id != e.o.id
    requires var i := LastIndex(h, x.id); i < |h| && h[i].o == x && Survives(h, i)
    ensures var i := LastIndex(h + [e], x.id); i < |h| && Survives(h + [e], i)
  {
    assert (h + [e])[..|h|] == h;
    SurvivesStep(h, e, LastIndex(h, x.id));
  }

  /** What is cached was unexpired at every insertion after its own. */
  lemma {:induction false} CacheSurvives(h: seq<Insertion>)
    ensures forall x :: x in CacheAfter(h) ==> LastIndex(h, x.id) < |h| && Survives(h, LastIndex(h, x.id))
    decreases |h|
  {
    hide LastIndex, Survives;
    if h != [] {
      var before, e := h[..|h| - 1], h[|h| - 1];
      assert h == before + [e];
      CacheSurvives(before);
      CachePlaced(before);
      var kept := Keep(CacheAfter(before), Stays(e.o, e.now));
      forall x | x in CacheAfter(h)
        ensures LastIndex(h, x.id) < |h| && Survives(h, LastIndex(h, x.id))
      {
        if x in kept {
          SurvivesKept(before, e, x);
        } else {
          assert x == e.o;
          NewestSurvives(h);
        }
      }
    }
  }

  lemma NewestSurvives(h: seq<Insertion>)
    requires h != []
    ensures LastIndex(h, h[|h| - 1].o.id) == |h| - 1 && Survives(h, |h| - 1)
  {
  }

  /** After any insertions the cache holds at most 8 entries with distinct ids, in insertion
      order with the newest last, each a survivor of the history. */
  lemma CacheShape(h: seq<Insertion>)
    requires h != []
    ensures var cache := CacheAfter(h);
            && 0 < |cache| <= 8 && DistinctIds(cache)
            && cache[|cache| - 1] == h[|h| - 1].o
            && (forall k :: 0 <= k < |cache| ==>
                  var i := LastIndex(h, cache[k].id); i < |h| && h[i].o == cache[k] && Survives(h, i))
            && (forall j, k :: 0 <= j < k < |cache| ==> LastIndex(h, cache[j].id) < LastIndex(h, cache[k].id))
  {
    hide LastIndex, Survives;
    CachePlaced(h);
    CacheSurvives(h);
    NewestSurvives(h);
  }

  /** A lookup succeeds exactly when the most recent observation with that id is still cached,
      validates and resolves the tag; it then gives that target and that expiry. */
  lemma LookupIsLatest<Target>(
    h: seq<Insertion>, validate: (Observation, int) -> bool, target: (Observation, string) -> Option<Target>,
    id: string, tag: string, now: int)
    ensures var i := LastIndex(h, id);
            Lookup(validate, target, CacheAfter(h), id, tag, now)
            == if i < |h| && h[i].o in CacheAfter(h) && validate(h[i].o, now) && target(h[i].o, tag).Some?
               then Some((target(h[i].o, tag).value, h[i].o.expiresAtMs)) else None
  {
    hide CacheAfter;
    CachePlaced(h);
    var cache := CacheAfter(h);
    var found := Find(cache, id);
    if found.Some? {
      var k :| 0 <= k < |cache| && cache[k] == found.value;
      assert h[LastIndex(h, cache[k].id)].o == cache[k];
    }
  }
}
