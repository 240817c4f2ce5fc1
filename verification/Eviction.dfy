/** `EvictMapping`: drops the index entries that are past both their times, and the bodies they name. */
module Eviction {
  import opened Wrappers
  import opened HttpHeader
  import opened Messages
  import opened Validator
  import opened Storage

  /** Past its fresh time and past its stale time. */
  predicate Dead(e: KeyIndex, now: Time) {
    e.freshTime < now && e.staleTime < now
  }

  function Kept(m: Mapping, now: Time): Mapping {
    map k | k in m && !Dead(m[k], now) :: m[k]
  }

  /** Index entries name variants by their own key, and variant keys are not index keys: `SetMultiLevel` is always
      called with the variant key as the real key. */
  ghost predicate WellIndexed(cells: Cells) {
    forall ik, k :: Lists(cells, ik, k) ==> !IsIndexKey(k) && cells[ik].value.mapping[k].realKey == k
  }

  predicate Lists(cells: Cells, ik: string, k: string) {
    ik in cells && IsIndexKey(ik) && cells[ik].value.Index? && k in cells[ik].value.mapping
  }

  lemma SetKeepsWellIndexed(cells: Cells, now: Time, stale: Time, base: string, variant: string, response: Response,
                            varied: Header, etag: string, duration: Time)
    requires WellIndexed(cells) && !IsIndexKey(variant)
    ensures WellIndexed(AfterSet(cells, now, stale, base, variant, response, varied, etag, duration, variant).0)
  {
    var after := AfterSet(cells, now, stale, base, variant, response, varied, etag, duration, variant).0;
    forall ik, k | Lists(after, ik, k)
      ensures !IsIndexKey(k) && after[ik].value.mapping[k].realKey == k
    {
      assert Lists(cells, ik, k) || k == variant;
    }
  }

  /** The index stored under `ik`, when Get and MapKeys return it. */
  predicate SeesIndex(cells: Cells, now: Time, hidesIndex: bool, ik: string) {
    IsIndexKey(ik) && Seen(cells, now, hidesIndex, ik).Some? && cells[ik].value.Index?
  }

  /** Some index the eviction reads has a dead entry for this key. */
  ghost predicate Doomed(cells: Cells, now: Time, hidesIndex: bool, key: string) {
    exists ik :: SeesIndex(cells, now, hidesIndex, ik) && key in cells[ik].value.mapping &&
      Dead(cells[ik].value.mapping[key], now)
  }

  function EvictedIndex(cell: Cell, now: Time, ttl: TTL): Option<Cell> {
    if !cell.value.Index? then None
    else
      var m := Kept(cell.value.mapping, now);
      if m == map[] then None
      else if m == cell.value.mapping then Some(cell)
      else Some(Cell(Index(m), Expiry(now, ttl)))
  }

  /** What is under a key after the eviction. */
  ghost function Evicted(cells: Cells, now: Time, hidesIndex: bool, ttl: TTL, key: string): Option<Cell> {
    if IsIndexKey(key) then
      if Seen(cells, now, hidesIndex, key).Some? then EvictedIndex(cells[key], now, ttl)
      else Under(cells, key)
    else if Doomed(cells, now, hidesIndex, key) then None
    else Under(cells, key)
  }

  function Under(cells: Cells, key: string): Option<Cell> {
    if key in cells then Some(cells[key]) else None
  }

  /** The inner loop: visits the entries in any order. */
  method EvictEntries(current: Storer, m: Mapping) returns (remaining: Mapping, updated: bool)
    requires forall k :: k in m ==> m[k].realKey == k
    modifies current`cells
    ensures remaining == Kept(m, current.now) && (updated <==> remaining != m)
    ensures forall key :: Under(current.cells, key) ==
                          if key in m && Dead(m[key], current.now) then None else Under(old(current.cells), key)
  {
    remaining, updated := m, false;
    var todo := m.Keys;
    while todo != {}
      invariant todo <= m.Keys
      invariant remaining == map k | k in m && (k in todo || !Dead(m[k], current.now)) :: m[k]
      invariant updated <==> remaining != m
      invariant forall key :: Under(current.cells, key) ==
                  if key in m && key !in todo && Dead(m[key], current.now) then None else Under(old(current.cells), key)
      decreases todo
    {
      var key :| key in todo;
      todo := todo - {key};
      if m[key].freshTime < current.now && m[key].staleTime < current.now {
        current.Delete(key);
        current.Delete(m[key].realKey);
        remaining := remaining - {key};
        updated := true;
        assert key in m && key !in remaining;
      }
    }
  }

  /** The indexes already visited, by their cut keys. */
  ghost predicate DoomedBy(values: map<string, Value>, visited: set<string>, now: Time, key: string) {
    exists k :: k in visited && k in values && values[k].Index? && key in values[k].mapping &&
      Dead(values[k].mapping[key], now)
  }

  /** What is under a key when the indexes in `visited` have been dealt with. */
  ghost function Halfway(cells: Cells, values: map<string, Value>, visited: set<string>, now: Time, ttl: TTL,
                         key: string): Option<Cell> {
    if IsIndexKey(key) then
      if key[4..] in visited && key in cells then EvictedIndex(cells[key], now, ttl) else Under(cells, key)
    else if DoomedBy(values, visited, now, key) then None
    else Under(cells, key)
  }

  /** The loop body of `EvictMapping`, for one key and the value MapKeys gave for it. */
  method EvictOne(current: Storer, ik: string, value: Value)
    requires IsIndexKey(ik) && ik in current.cells && current.cells[ik].value == value
    requires value.Index? ==> forall k :: k in value.mapping ==> !IsIndexKey(k) && value.mapping[k].realKey == k
    modifies current`cells
    ensures forall key :: Under(current.cells, key) ==
              if key == ik then EvictedIndex(old(current.cells[ik]), current.now, current.indexTTL)
              else if value.Index? && key in value.mapping && Dead(value.mapping[key], current.now) then None
              else Under(old(current.cells), key)
  {
    hide Dead, Kept;
    match value {
      case Index(m) =>
        var remaining, updated := EvictEntries(current, m);
        if updated {
          current.Set(ik, Index(remaining), current.indexTTL);
        }
        if remaining == map[] {
          current.Delete(ik);
        }
      case _ =>
        current.Delete(ik);
    }
  }

  lemma NothingVisited(was: Cells, values: map<string, Value>, now: Time, ttl: TTL)
    ensures forall key :: Under(was, key) == Halfway(was, values, {}, now, ttl, key)
  {
  }

  /** An index that was not visited is still there, and names variants by their own keys. */
  lemma NotVisited(was: Cells, values: map<string, Value>, visited: set<string>, now: Time, ttl: TTL, k: string)
    requires WellIndexed(was) && k !in visited && INDEX_PREFIX + k in was
    ensures IsIndexKey(INDEX_PREFIX + k)
    ensures Halfway(was, values, visited, now, ttl, INDEX_PREFIX + k) == Some(was[INDEX_PREFIX + k])
    ensures was[INDEX_PREFIX + k].value.Index? ==>
              forall e :: e in was[INDEX_PREFIX + k].value.mapping ==>
                !IsIndexKey(e) && was[INDEX_PREFIX + k].value.mapping[e].realKey == e
  {
    var ik := INDEX_PREFIX + k;
    assert ik[4..] == k && IsIndexKey(ik);
    if was[ik].value.Index? {
      forall e | e in was[ik].value.mapping
        ensures !IsIndexKey(e) && was[ik].value.mapping[e].realKey == e
      {
        assert Lists(was, ik, e);
      }
    }
  }

  method EvictMapping(current: Storer)
    requires WellIndexed(current.cells)
    modifies current`cells
    ensures forall key :: Under(current.cells, key) ==
                          Evicted(old(current.cells), current.now, current.hidesIndex, current.indexTTL, key)
    ensures DropsByTime(old(current.cells), current.cells, current.now, current.hidesIndex)
  {
    hide Halfway, EvictedIndex, Evicted, WellIndexed, Dead;
    ghost var was, now, ttl := current.cells, current.now, current.indexTTL;
    var values := current.MapKeys(INDEX_PREFIX);
    NothingVisited(was, values, now, ttl);
    var todo := values.Keys;
    assert values.Keys - todo == {};
    while todo != {}
      invariant todo <= values.Keys
      invariant forall key :: Under(current.cells, key) == Halfway(was, values, values.Keys - todo, now, ttl, key)
      decreases todo
    {
      var k :| k in todo;
      ghost var visited := values.Keys - todo;
      ghost var before := current.cells;
      todo := todo - {k};
      assert values.Keys - todo == visited + {k};
      var key := INDEX_PREFIX + k;
      NotVisited(was, values, visited, now, ttl, k);
      EvictOne(current, key, values[k]);
      VisitOne(was, before, current.cells, values, visited, k, now, ttl);
    }
    assert values.Keys - todo == values.Keys;
    AllVisited(was, values, now, current.hidesIndex, ttl);
    EvictionDropsByTime(was, current.cells, now, current.hidesIndex, ttl);
  }

  /** The eviction by the times of the entries: an entry is gone, and its body with it, if and only if both its times
      have passed; every other entry and body is there as it was. */
  ghost predicate DropsByTime(before: Cells, after: Cells, now: Time, hidesIndex: bool) {
    && (forall ik, k :: SeesIndex(after, now, hidesIndex, ik) && k in after[ik].value.mapping ==>
          now <= after[ik].value.mapping[k].freshTime || now <= after[ik].value.mapping[k].staleTime)
    && (forall ik, k :: SeesIndex(before, now, hidesIndex, ik) && k in before[ik].value.mapping ==>
          if before[ik].value.mapping[k].freshTime < now && before[ik].value.mapping[k].staleTime < now
          then k !in after && !Lists(after, ik, k)
          else Lists(after, ik, k) && after[ik].value.mapping[k] == before[ik].value.mapping[k])
    && (forall k :: k in before && !IsIndexKey(k) && !(exists ik :: PastBothTimes(before, now, hidesIndex, ik, k)) ==>
          k in after && after[k] == before[k])
    && (forall k :: k in after && !IsIndexKey(k) ==> k in before && after[k] == before[k])
  }

  /** An index that is read lists the key with both its times in the past. */
  predicate PastBothTimes(cells: Cells, now: Time, hidesIndex: bool, ik: string, k: string) {
    SeesIndex(cells, now, hidesIndex, ik) && k in cells[ik].value.mapping &&
    cells[ik].value.mapping[k].freshTime < now && cells[ik].value.mapping[k].staleTime < now
  }

  lemma EvictionDropsByTime(before: Cells, after: Cells, now: Time, hidesIndex: bool, ttl: TTL)
    requires WellIndexed(before)
    requires forall key :: Under(after, key) == Evicted(before, now, hidesIndex, ttl, key)
    ensures DropsByTime(before, after, now, hidesIndex)
  {
    forall ik, k | SeesIndex(before, now, hidesIndex, ik) && k in before[ik].value.mapping
      ensures if before[ik].value.mapping[k].freshTime < now && before[ik].value.mapping[k].staleTime < now
              then k !in after && !Lists(after, ik, k)
              else Lists(after, ik, k) && after[ik].value.mapping[k] == before[ik].value.mapping[k]
    {
      EntryDropsByTime(before, after, now, hidesIndex, ttl, ik, k);
    }
    forall ik, k | SeesIndex(after, now, hidesIndex, ik) && k in after[ik].value.mapping
      ensures now <= after[ik].value.mapping[k].freshTime || now <= after[ik].value.mapping[k].staleTime
    {
      EntryLeftByTime(before, after, now, hidesIndex, ttl, ik, k);
    }
    forall k | !IsIndexKey(k)
      ensures k in after ==> k in before && after[k] == before[k]
      ensures k in before && !(exists ik :: PastBothTimes(before, now, hidesIndex, ik, k)) ==> k in after
    {
      BodyDropsByTime(before, after, now, hidesIndex, ttl, k);
    }
  }

  lemma EntryDropsByTime(before: Cells, after: Cells, now: Time, hidesIndex: bool, ttl: TTL, ik: string, k: string)
    requires WellIndexed(before) && SeesIndex(before, now, hidesIndex, ik) && k in before[ik].value.mapping
    requires forall key :: Under(after, key) == Evicted(before, now, hidesIndex, ttl, key)
    ensures if before[ik].value.mapping[k].freshTime < now && before[ik].value.mapping[k].staleTime < now
            then k !in after && !Lists(after, ik, k)
            else Lists(after, ik, k) && after[ik].value.mapping[k] == before[ik].value.mapping[k]
  {
    var m := before[ik].value.mapping;
    assert Lists(before, ik, k);
    assert Under(after, ik) == Evicted(before, now, hidesIndex, ttl, ik);
    assert Under(after, k) == Evicted(before, now, hidesIndex, ttl, k);
    assert k in Kept(m, now) <==> !(m[k].freshTime < now && m[k].staleTime < now);
  }

  lemma EntryLeftByTime(before: Cells, after: Cells, now: Time, hidesIndex: bool, ttl: TTL, ik: string, k: string)
    requires SeesIndex(after, now, hidesIndex, ik) && k in after[ik].value.mapping
    requires forall key :: Under(after, key) == Evicted(before, now, hidesIndex, ttl, key)
    ensures now <= after[ik].value.mapping[k].freshTime || now <= after[ik].value.mapping[k].staleTime
  {
    assert Under(after, ik) == Evicted(before, now, hidesIndex, ttl, ik);
  }

  lemma BodyDropsByTime(before: Cells, after: Cells, now: Time, hidesIndex: bool, ttl: TTL, k: string)
    requires !IsIndexKey(k)
    requires forall key :: Under(after, key) == Evicted(before, now, hidesIndex, ttl, key)
    ensures k in after ==> k in before && after[k] == before[k]
    ensures k in before && !(exists ik :: PastBothTimes(before, now, hidesIndex, ik, k)) ==> k in after
  {
    assert Under(after, k) == Evicted(before, now, hidesIndex, ttl, k);
    if Doomed(before, now, hidesIndex, k) {
      var ik :| SeesIndex(before, now, hidesIndex, ik) && k in before[ik].value.mapping &&
        Dead(before[ik].value.mapping[k], now);
      assert PastBothTimes(before, now, hidesIndex, ik, k);
    }
  }

  lemma VisitOne(was: Cells, before: Cells, after: Cells, values: map<string, Value>, visited: set<string>,
                 k: string, now: Time, ttl: TTL)
    requires WellIndexed(was) && k in values && k !in visited
    requires INDEX_PREFIX + k in was && was[INDEX_PREFIX + k].value == values[k]
    requires forall key :: Under(before, key) == Halfway(was, values, visited, now, ttl, key)
    requires forall key :: Under(after, key) ==
               if key == INDEX_PREFIX + k then EvictedIndex(was[INDEX_PREFIX + k], now, ttl)
               else if values[k].Index? && key in values[k].mapping && Dead(values[k].mapping[key], now) then None
               else Under(before, key)
    ensures forall key :: Under(after, key) == Halfway(was, values, visited + {k}, now, ttl, key)
  {
    var ik := INDEX_PREFIX + k;
    assert ik[4..] == k && IsIndexKey(ik);
    forall key
      ensures Under(after, key) == Halfway(was, values, visited + {k}, now, ttl, key)
    {
      assert IsIndexKey(key) ==> key == INDEX_PREFIX + key[4..];
      if !IsIndexKey(key) {
        assert DoomedBy(values, visited + {k}, now, key) <==>
               DoomedBy(values, visited, now, key) ||
               (values[k].Index? && key in values[k].mapping && Dead(values[k].mapping[key], now));
      }
    }
  }

  lemma AllVisited(was: Cells, values: map<string, Value>, now: Time, hidesIndex: bool, ttl: TTL)
    requires forall k :: k in values <==> Seen(was, now, hidesIndex, INDEX_PREFIX + k).Some?
    requires forall k :: k in values ==> values[k] == Seen(was, now, hidesIndex, INDEX_PREFIX + k).value
    ensures forall key :: Halfway(was, values, values.Keys, now, ttl, key) == Evicted(was, now, hidesIndex, ttl, key)
  {
    forall key
      ensures Halfway(was, values, values.Keys, now, ttl, key) == Evicted(was, now, hidesIndex, ttl, key)
    {
      if IsIndexKey(key) {
        assert key == INDEX_PREFIX + key[4..];
      } else {
        if DoomedBy(values, values.Keys, now, key) {
          var k :| k in values && values[k].Index? && key in values[k].mapping && Dead(values[k].mapping[key], now);
          assert IsIndexKey(INDEX_PREFIX + k);
          assert SeesIndex(was, now, hidesIndex, INDEX_PREFIX + k);
        }
        if Doomed(was, now, hidesIndex, key) {
          var ik :| SeesIndex(was, now, hidesIndex, ik) && key in was[ik].value.mapping &&
            Dead(was[ik].value.mapping[key], now);
          assert ik == INDEX_PREFIX + ik[4..];
          assert ik[4..] in values;
        }
      }
    }
  }

  // ---- Nobody notices

  /** A variant a lookup of the base key could serve fresh, or stale, at time `t`. */
  ghost predicate FreshAt(cells: Cells, t: Time, hidesIndex: bool, base: string, rq: Header, k: string) {
    IndexOf(cells, t, base).Some? && FreshIn(cells, t, hidesIndex, IndexOf(cells, t, base).value, rq, k)
  }

  ghost predicate StaleAt(cells: Cells, t: Time, hidesIndex: bool, base: string, rq: Header, k: string) {
    IndexOf(cells, t, base).Some? && StaleIn(cells, t, hidesIndex, IndexOf(cells, t, base).value, rq, k)
  }

  /** No variant key is listed under two base keys. */
  ghost predicate SingleOwner(cells: Cells) {
    forall a, b, k :: Lists(cells, a, k) && Lists(cells, b, k) ==> a == b
  }

  /** The eviction rewrites the index of the base key. */
  predicate Rewritten(cells: Cells, now: Time, hidesIndex: bool, base: string) {
    var ik := IndexKey(base);
    SeesIndex(cells, now, hidesIndex, ik) && Kept(cells[ik].value.mapping, now) != cells[ik].value.mapping
  }

  /** A rewritten index lives as long as the storer's index time says; another one as long as before. */
  predicate IndexLivesAfter(cells: Cells, now: Time, hidesIndex: bool, ttl: TTL, base: string, t: Time) {
    if Rewritten(cells, now, hidesIndex, base) then ttl.Keep? || t < now + ttl.duration
    else Live(cells, t, IndexKey(base))
  }

  /** A candidate apart from the question whether the index itself has expired. */
  ghost predicate FreshListed(cells: Cells, t: Time, hidesIndex: bool, base: string, rq: Header, k: string) {
    Lists(cells, IndexKey(base), k) && FreshIn(cells, t, hidesIndex, cells[IndexKey(base)].value.mapping, rq, k)
  }

  ghost predicate StaleListed(cells: Cells, t: Time, hidesIndex: bool, base: string, rq: Header, k: string) {
    Lists(cells, IndexKey(base), k) && StaleIn(cells, t, hidesIndex, cells[IndexKey(base)].value.mapping, rq, k)
  }

  /** For every base key, request and time from the eviction on: a lookup can serve what it could have served
      without the eviction, except that a rewritten index gets a new lifetime. While neither lifetime has
      ended, nothing changes. */
  lemma EvictionIsInvisible(cells: Cells, after: Cells, now: Time, hidesIndex: bool, ttl: TTL,
                            t: Time, base: string, rq: Header, k: string)
    requires WellIndexed(cells) && SingleOwner(cells) && now <= t
    requires forall key :: Under(after, key) == Evicted(cells, now, hidesIndex, ttl, key)
    ensures FreshAt(after, t, hidesIndex, base, rq, k) <==>
            FreshListed(cells, t, hidesIndex, base, rq, k) && IndexLivesAfter(cells, now, hidesIndex, ttl, base, t)
    ensures StaleAt(after, t, hidesIndex, base, rq, k) <==>
            StaleListed(cells, t, hidesIndex, base, rq, k) && IndexLivesAfter(cells, now, hidesIndex, ttl, base, t)
    ensures (Live(cells, t, IndexKey(base)) <==> IndexLivesAfter(cells, now, hidesIndex, ttl, base, t)) ==>
              SameCandidate(cells, after, t, hidesIndex, base, rq, k)
  {
    hide ETagRule, SendsStoredValues, Rewritten, Evicted, Doomed, Kept, Dead, SeesIndex;
    IndexAfter(cells, after, now, hidesIndex, ttl, t, base);
    CandidateIsListed(cells, t, hidesIndex, base, rq, k);
    if Lists(cells, IndexKey(base), k) {
      ItemAfter(cells, after, now, hidesIndex, ttl, t, IndexKey(base), k);
      DeadIsNoCandidate(cells, now, hidesIndex, t, IndexKey(base), rq, k);
    } else {
      UnlistedAfter(cells, after, now, hidesIndex, ttl, t, base, rq, k);
    }
  }

  /** The index a lookup decodes after the eviction. */
  lemma IndexAfter(cells: Cells, after: Cells, now: Time, hidesIndex: bool, ttl: TTL, t: Time, base: string)
    requires now <= t && forall key :: Under(after, key) == Evicted(cells, now, hidesIndex, ttl, key)
    ensures var ik := IndexKey(base);
            if SeesIndex(cells, now, hidesIndex, ik)
            then var kept := Kept(cells[ik].value.mapping, now);
                 IndexOf(after, t, base) ==
                   if kept != map[] && IndexLivesAfter(cells, now, hidesIndex, ttl, base, t) then Some(kept) else None
            else IndexOf(after, t, base) == IndexOf(cells, t, base) && !Rewritten(cells, now, hidesIndex, base)
  {
    var ik := IndexKey(base);
    assert IsIndexKey(ik);
    assert Under(after, ik) == Evicted(cells, now, hidesIndex, ttl, ik);
  }

  /** A listed variant that is not dead keeps its body. */
  lemma ItemAfter(cells: Cells, after: Cells, now: Time, hidesIndex: bool, ttl: TTL, t: Time, ik: string, k: string)
    requires WellIndexed(cells) && SingleOwner(cells) && Lists(cells, ik, k)
    requires forall key :: Under(after, key) == Evicted(cells, now, hidesIndex, ttl, key)
    ensures !Dead(cells[ik].value.mapping[k], now) ==> Seen(after, t, hidesIndex, k) == Seen(cells, t, hidesIndex, k)
    ensures !SeesIndex(cells, now, hidesIndex, ik) ==> Seen(after, t, hidesIndex, k) == Seen(cells, t, hidesIndex, k)
  {
    assert !IsIndexKey(k);
    assert Under(after, k) == Evicted(cells, now, hidesIndex, ttl, k);
    if !Dead(cells[ik].value.mapping[k], now) || !SeesIndex(cells, now, hidesIndex, ik) {
      OnlyOwnerDooms(cells, now, hidesIndex, ik, k);
    }
  }

  lemma DeadIsNoCandidate(cells: Cells, now: Time, hidesIndex: bool, t: Time, ik: string, rq: Header, k: string)
    requires now <= t && Lists(cells, ik, k)
    ensures k in Kept(cells[ik].value.mapping, now) <==> !Dead(cells[ik].value.mapping[k], now)
    ensures k in Kept(cells[ik].value.mapping, now) ==>
            Kept(cells[ik].value.mapping, now)[k] == cells[ik].value.mapping[k]
    ensures Dead(cells[ik].value.mapping[k], now) ==>
              t >= cells[ik].value.mapping[k].freshTime && t >= cells[ik].value.mapping[k].staleTime
  {
  }

  lemma UnlistedAfter(cells: Cells, after: Cells, now: Time, hidesIndex: bool, ttl: TTL, t: Time, base: string,
                      rq: Header, k: string)
    requires now <= t && !Lists(cells, IndexKey(base), k)
    requires forall key :: Under(after, key) == Evicted(cells, now, hidesIndex, ttl, key)
    ensures IndexOf(after, t, base).Some? ==> k !in IndexOf(after, t, base).value
  {
    assert IsIndexKey(IndexKey(base));
    IndexAfter(cells, after, now, hidesIndex, ttl, t, base);
  }

  lemma OnlyOwnerDooms(cells: Cells, now: Time, hidesIndex: bool, ik: string, k: string)
    requires SingleOwner(cells) && Lists(cells, ik, k)
    requires !Dead(cells[ik].value.mapping[k], now) || !SeesIndex(cells, now, hidesIndex, ik)
    ensures !Doomed(cells, now, hidesIndex, k)
  {
    forall other | SeesIndex(cells, now, hidesIndex, other) && k in cells[other].value.mapping
      ensures !Dead(cells[other].value.mapping[k], now)
    {
      assert Lists(cells, other, k);
    }
  }

  /** So the eviction is invisible to a base key for good if and only if, whenever something it lists could be
      served, the index without the eviction and the index after it are both alive or both gone. */
  lemma InvisibleExactly(cells: Cells, after: Cells, now: Time, hidesIndex: bool, ttl: TTL, base: string)
    requires WellIndexed(cells) && SingleOwner(cells)
    requires forall key :: Under(after, key) == Evicted(cells, now, hidesIndex, ttl, key)
    ensures (forall t, rq, k :: now <= t ==> SameCandidate(cells, after, t, hidesIndex, base, rq, k)) <==>
            (forall t, rq, k :: now <= t && Servable(cells, t, hidesIndex, base, rq, k) ==>
               (Live(cells, t, IndexKey(base)) <==> IndexLivesAfter(cells, now, hidesIndex, ttl, base, t)))
  {
    hide FreshListed, StaleListed, IndexLivesAfter;
    forall t, rq, k | now <= t
      ensures SameCandidate(cells, after, t, hidesIndex, base, rq, k) <==>
              (Servable(cells, t, hidesIndex, base, rq, k) ==>
                 (Live(cells, t, IndexKey(base)) <==> IndexLivesAfter(cells, now, hidesIndex, ttl, base, t)))
    {
      EvictionIsInvisible(cells, after, now, hidesIndex, ttl, t, base, rq, k);
      CandidateIsListed(cells, t, hidesIndex, base, rq, k);
    }
    if forall t, rq, k :: now <= t ==> SameCandidate(cells, after, t, hidesIndex, base, rq, k) {
      forall t, rq, k | now <= t && Servable(cells, t, hidesIndex, base, rq, k)
        ensures Live(cells, t, IndexKey(base)) <==> IndexLivesAfter(cells, now, hidesIndex, ttl, base, t)
      {
        assert SameCandidate(cells, after, t, hidesIndex, base, rq, k);
      }
    }
  }

  // ---- When a rewritten index is noticed

  /** One value under a canonical name for each varied header. */
  predicate SingleValued(varied: Header) {
    forall name :: name in varied ==> CanonicalHeaderKey(name) == name && |varied[name]| == 1
  }

  /** The index of the base key, and the bodies it names, as `SetMultiLevel` and evictions write them; bodies may be
      gone, and the index does not end before the bodies that are there. */
  predicate AsStored(cells: Cells, base: string) {
    IndexKey(base) in cells ==>
      cells[IndexKey(base)].value.Index? &&
      var m, expires := cells[IndexKey(base)].value.mapping, cells[IndexKey(base)].expires;
      forall k :: k in m && k in cells ==>
        (expires.Some? ==> m[k].staleTime <= expires.value) && m[k].freshTime <= m[k].staleTime &&
          SingleValued(m[k].variedHeaders) &&
        cells[k].value.Body? && cells[k].expires == Some(m[k].staleTime)
  }

  /** No kept entry that still has its body ends after the rewritten index does. */
  predicate KeptEndInTime(cells: Cells, now: Time, duration: Time, base: string)
    requires IndexKey(base) in cells && cells[IndexKey(base)].value.Index?
  {
    var kept := Kept(cells[IndexKey(base)].value.mapping, now);
    forall k :: k in kept && k in cells && now < kept[k].staleTime ==> kept[k].staleTime <= now + duration
  }

  /** An eviction is invisible for good to a base key whose index is as stores and evictions leave it, if and only if
      it does not rewrite that index, or the storer keeps indexes for ever, or every kept entry ends before the new
      index. */
  lemma InvisibleToStoredIndexExactly(cells: Cells, after: Cells, now: Time, hidesIndex: bool, ttl: TTL, base: string)
    requires WellIndexed(cells) && SingleOwner(cells) && AsStored(cells, base)
    requires forall key :: Under(after, key) == Evicted(cells, now, hidesIndex, ttl, key)
    ensures (forall t, rq, k :: now <= t ==> SameCandidate(cells, after, t, hidesIndex, base, rq, k)) <==>
            (Rewritten(cells, now, hidesIndex, base) ==> ttl.Keep? || KeptEndInTime(cells, now, ttl.duration, base))
  {
    hide SameCandidate, Evicted, ETagRule, SendsStoredValues, SingleOwner, WellIndexed;
    InvisibleExactly(cells, after, now, hidesIndex, ttl, base);
    var ik := IndexKey(base);
    if Rewritten(cells, now, hidesIndex, base) && ttl.For? {
      if KeptEndInTime(cells, now, ttl.duration, base) {
        forall t, rq, k | now <= t && Servable(cells, t, hidesIndex, base, rq, k)
          ensures Live(cells, t, ik) <==> IndexLivesAfter(cells, now, hidesIndex, ttl, base, t)
        {
          assert k in Kept(cells[ik].value.mapping, now);
        }
      } else {
        var kept := Kept(cells[ik].value.mapping, now);
        var k :| k in kept && k in cells && now < kept[k].staleTime && now + ttl.duration < kept[k].staleTime;
        var t := if ttl.duration >= 0 then now + ttl.duration else now;
        AskingSelects(kept[k].variedHeaders, kept[k].etag);
        assert IsIndexKey(ik) && Servable(cells, t, hidesIndex, base, Asking(kept[k].variedHeaders), k);
      }
    } else {
      forall t, rq, k | now <= t && Servable(cells, t, hidesIndex, base, rq, k)
        ensures Live(cells, t, ik) <==> IndexLivesAfter(cells, now, hidesIndex, ttl, base, t)
      {
      }
    }
  }

  /** A request that an entry with these varied headers is selected for, whatever its entity tag. */
  function Asking(varied: Header): Header {
    map name | name in varied :: if name == "If-None-Match" then varied[name] + ["*"] else varied[name]
  }

  lemma AskingSelects(varied: Header, etag: string)
    requires SingleValued(varied)
    ensures SendsStoredValues(varied, Asking(varied)) && ETagRule(Asking(varied), etag)
  {
    assert CanonicalHeaderKey("If-None-Match") == "If-None-Match";
    var tag := "If-None-Match";
    if tag in varied {
      assert Values(Asking(varied), tag)[1] == "*";
    }
  }

  /** An index that never expires lists a dead variant and a live one. Evicted at time 100 by a storer that keeps a
      rewritten index for 50, it is missed at time 200. */
  lemma EvictionIsNoticed() returns (cells: Cells, after: Cells)
    ensures WellIndexed(cells) && SingleOwner(cells) && AsStored(cells, "base")
    ensures forall key :: Under(after, key) == Evicted(cells, 100, false, For(50), key)
    ensures FreshAt(cells, 200, false, "base", map[], "live") && !FreshAt(after, 200, false, "base", map[], "live")
  {
    hide SingleValued, CanonicalHeaderKey;
    var r := Response(200, map[], "", NoDate, None, 0, None, None);
    var ik := IndexKey("base");
    var dead, live := KeyIndex(0, 10, 20, map[], "", "dead"), KeyIndex(0, 1000, 2000, map[], "", "live");
    var m := map["dead" := dead, "live" := live];
    assert "dead"[0] == 'd' && "live"[0] == 'l' && ik[0] == 'I';
    cells := map[ik := Cell(Index(m), None), "dead" := Cell(Body(r), Some(20)), "live" := Cell(Body(r), Some(2000))];
    after := map[ik := Cell(Index(map["live" := live]), Some(150)), "live" := Cell(Body(r), Some(2000))];
    assert Kept(m, 100) == map["live" := live];
    assert "live" in Kept(m, 100) && "dead" !in Kept(m, 100) && "dead" in m;
    assert IsIndexKey(ik) && SeesIndex(cells, 100, false, ik) && Doomed(cells, 100, false, "dead");
    forall key
      ensures Under(after, key) == Evicted(cells, 100, false, For(50), key)
    {
      if key != ik && key != "dead" {
        assert !Doomed(cells, 100, false, key);
      }
    }
    assert SingleValued(map[]) by { NothingVaries(); }
  }

  lemma NothingVaries()
    ensures SingleValued(map[])
  {
  }

  ghost predicate Servable(cells: Cells, t: Time, hidesIndex: bool, base: string, rq: Header, k: string) {
    FreshListed(cells, t, hidesIndex, base, rq, k) || StaleListed(cells, t, hidesIndex, base, rq, k)
  }

  lemma CandidateIsListed(cells: Cells, t: Time, hidesIndex: bool, base: string, rq: Header, k: string)
    ensures FreshAt(cells, t, hidesIndex, base, rq, k) <==>
            FreshListed(cells, t, hidesIndex, base, rq, k) && Live(cells, t, IndexKey(base))
    ensures StaleAt(cells, t, hidesIndex, base, rq, k) <==>
            StaleListed(cells, t, hidesIndex, base, rq, k) && Live(cells, t, IndexKey(base))
  {
    hide ETagRule, SendsStoredValues;
    assert IsIndexKey(IndexKey(base));
  }

  ghost predicate SameCandidate(cells: Cells, after: Cells, t: Time, hidesIndex: bool, base: string, rq: Header,
                                k: string) {
    (FreshAt(after, t, hidesIndex, base, rq, k) <==> FreshAt(cells, t, hidesIndex, base, rq, k)) &&
    (StaleAt(after, t, hidesIndex, base, rq, k) <==> StaleAt(cells, t, hidesIndex, base, rq, k))
  }

  /** Afterwards every index the storer returns is non-empty and lists only entries not past both times. */
  lemma EvictionLeavesLiveEntries(cells: Cells, after: Cells, now: Time, hidesIndex: bool, ttl: TTL, ik: string)
    requires WellIndexed(cells) && IsIndexKey(ik)
    requires forall key :: Under(after, key) == Evicted(cells, now, hidesIndex, ttl, key)
    ensures Seen(after, now, hidesIndex, ik).Some? ==>
              after[ik].value.Index? && after[ik].value.mapping != map[] &&
              forall k :: k in after[ik].value.mapping ==>
                now <= after[ik].value.mapping[k].freshTime || now <= after[ik].value.mapping[k].staleTime
    ensures WellIndexed(after) && (SingleOwner(cells) ==> SingleOwner(after))
  {
    forall i, k | Lists(after, i, k)
      ensures !IsIndexKey(k) && after[i].value.mapping[k].realKey == k && Lists(cells, i, k)
    {
      assert Under(after, i) == Evicted(cells, now, hidesIndex, ttl, i);
      assert Lists(cells, i, k) && after[i].value.mapping[k] == cells[i].value.mapping[k];
    }
    assert Under(after, ik) == Evicted(cells, now, hidesIndex, ttl, ik);
  }
}
