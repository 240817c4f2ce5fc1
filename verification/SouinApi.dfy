/** The administration API: `BulkDelete`, and the PURGE of surrogate tags end to end. */
module SouinApi {
  import opened Strings
  import opened Wrappers
  import opened UrlEscape
  import opened HttpHeader
  import opened Messages
  import opened Validator
  import opened Storage
  import opened TagText
  import opened TagIndex

  function CutIndexPrefix(key: string): string {
    if IsIndexKey(key) then key[|INDEX_PREFIX|..] else key
  }

  /** Whether the value has any bytes: an empty index encodes to none. */
  predicate HasBytes(v: Value) {
    v != Text("") && v != Index(map[])
  }

  /** Every entry stops being fresh now. */
  function Refreshed(m: Mapping, now: Time): Mapping {
    map k | k in m :: m[k].(freshTime := now)
  }

  /** The keys the decoded index names; other bytes decode to no index. */
  function MappingIn(v: Value): Mapping {
    match v
    case Index(m) => m
    case _ => map[]
  }

  function AfterGet(cells: Cells, now: Time, key: string): Cells {
    if key in cells && !Live(cells, now, key) then cells - {key} else cells
  }

  /** One storer after the loop body of `BulkDelete`. */
  function AfterBulkStep(cells: Cells, now: Time, hidesIndex: bool, ttl: TTL, key: string, purge: bool): Cells {
    var ik := IndexKey(key);
    var seen := Seen(cells, now, hidesIndex, ik);
    var got := AfterGet(cells, now, ik);
    var cut :=
      if seen.Some? && HasBytes(seen.value) then
        var m := MappingIn(seen.value);
        if purge then got - m.Keys else (got - m.Keys)[ik := Cell(Index(Refreshed(m, now)), Expiry(now, ttl))]
      else got;
    (if purge then cut - {ik} else cut) - {key}
  }

  /** One storer after `SouinAPI.Delete`: by pattern when the key compiles as a regular expression. */
  function AfterDelete(cells: Cells, re: Regexp, key: string): Cells {
    if re.compiles(key) then AfterDeleteMany(cells, re, key) else cells - {key}
  }

  function AfterBulkDelete(cells: Cells, now: Time, hidesIndex: bool, ttl: TTL, re: Regexp, key: string,
                           purge: bool): Cells {
    AfterDelete(AfterBulkStep(cells, now, hidesIndex, ttl, CutIndexPrefix(key), purge), re, CutIndexPrefix(key))
  }

  // ---- What a bulk deletion touches, key by key

  /** The base key, its index, the keys listed in the index that Get returns, and those that the base key, read as a
      pattern, matches or is a prefix of. */
  predicate Touched(cells: Cells, now: Time, hidesIndex: bool, re: Regexp, base: string, k: string) {
    || k == base || k == IndexKey(base)
    || (var seen := Seen(cells, now, hidesIndex, IndexKey(base));
        seen.Some? && seen.value.Index? && k in seen.value.mapping)
    || (re.compiles(base) && (re.matches(base, k) || HasPrefix(k, base)))
  }

  /** Exactly the touched keys are gone, on a purge the index with them; without a purge its entries stop being
      fresh. */
  ghost predicate DeletesTouched(before: Cells, after: Cells, now: Time, hidesIndex: bool, re: Regexp, base: string,
                                 purge: bool) {
    && (forall k :: !Touched(before, now, hidesIndex, re, base, k) ==>
          (k in after <==> k in before) && (k in after ==> after[k] == before[k]))
    && (forall k :: Touched(before, now, hidesIndex, re, base, k) && k != IndexKey(base) ==> k !in after)
    && (purge ==> IndexKey(base) !in after)
    && (!purge && IndexKey(base) in after && after[IndexKey(base)].value.Index? && IndexKey(base) in before &&
        Seen(before, now, hidesIndex, IndexKey(base)).Some? && before[IndexKey(base)].value.Index? ==>
          var m, was := after[IndexKey(base)].value.mapping, before[IndexKey(base)].value.mapping;
          m.Keys == was.Keys && forall k :: k in m ==> m[k] == was[k].(freshTime := now))
  }

  lemma BulkDeletesTouched(cells: Cells, now: Time, hidesIndex: bool, ttl: TTL, re: Regexp, key: string, purge: bool)
    ensures DeletesTouched(cells, AfterBulkDelete(cells, now, hidesIndex, ttl, re, key, purge), now, hidesIndex, re,
                           CutIndexPrefix(key), purge)
  {
  }

  /** What a smaller store has touched, the larger one has touched. */
  lemma TouchedBefore(before: Cells, after: Cells, now: Time, hidesIndex: bool, re: Regexp, base: string, k: string)
    requires Shrunk(before, after) && Touched(after, now, hidesIndex, re, base, k)
    ensures Touched(before, now, hidesIndex, re, base, k)
  {
  }

  /** A key that none of the deletions touches is still there. */
  ghost predicate Spared(before: Cells, after: Cells, now: Time, hidesIndex: bool, re: Regexp, keys: seq<string>) {
    forall k :: k in before && (forall key :: key in keys ==>
        !Touched(before, now, hidesIndex, re, CutIndexPrefix(key), k)) ==>
      k in after && after[k] == before[k]
  }

  lemma SparedOneMore(before: Cells, between: Cells, after: Cells, now: Time, hidesIndex: bool, re: Regexp,
                      keys: seq<string>, key: string)
    requires Shrunk(before, between) && Spared(before, between, now, hidesIndex, re, keys)
    requires DeletesTouched(between, after, now, hidesIndex, re, CutIndexPrefix(key), true)
    ensures Spared(before, after, now, hidesIndex, re, keys + [key])
  {
    hide Touched;
    forall k | k in before &&
      forall x :: x in keys + [key] ==> !Touched(before, now, hidesIndex, re, CutIndexPrefix(x), k)
      ensures k in after && after[k] == before[k]
    {
      assert forall x :: x in keys ==> x in keys + [key];
      assert key in keys + [key];
      if Touched(between, now, hidesIndex, re, CutIndexPrefix(key), k) {
        TouchedBefore(before, between, now, hidesIndex, re, CutIndexPrefix(key), k);
      }
    }
  }

  function TagKeys(names: seq<string>): seq<string> {
    seq(|names|, i requires 0 <= i < |names| => TagKey(names[i]))
  }

  /** None of the keys recorded under the named tags, and none of the tags' own records, touches this key. */
  ghost predicate NotPurged(tagCells: Cells, tagNow: Time, tagHides: bool, names: seq<string>,
                            cells: Cells, now: Time, hidesIndex: bool, re: Regexp, k: string) {
    && (forall tag, item :: tag in names && item != "" && Recorded(tagCells, tagNow, tagHides, tag, item) ==>
          !Touched(cells, now, hidesIndex, re, CutIndexPrefix(Decoded(item)), k))
    && (forall tag :: tag in names ==> !Touched(cells, now, hidesIndex, re, TagKey(tag), k))
  }

  /** A live key that is not purged passes the three stages: Purge, its keys, its tags. */
  lemma NotPurgedStays(tagCells: Cells, tagNow: Time, tagHides: bool, names: seq<string>, ck: seq<string>,
                       was: Cells, named: Cells, deleted: Cells, after: Cells, now: Time, hidesIndex: bool,
                         re: Regexp, k: string)
    requires ck == DecodedAll(Distinct(NonEmpty(ConcatRecords(tagCells, tagNow, tagHides, names))))
    requires Live(was, now, k) && NotPurged(tagCells, tagNow, tagHides, names, was, now, hidesIndex, re, k)
    requires Shrunk(was, named) && Shrunk(named, deleted)
    requires forall x :: x in was && x !in named ==>
             !Live(was, now, x) || exists tag :: tag in names && x == TagKey(tag)
    requires Spared(named, deleted, now, hidesIndex, re, ck) &&
             Spared(deleted, after, now, hidesIndex, re, TagKeys(names))
    ensures k in after && after[k] == was[k]
  {
    hide Recorded, Decoded, ConcatRecords, Distinct, NonEmpty, TagKey;
    forall tag | tag in names
      ensures k != TagKey(tag)
    {
      assert !Touched(was, now, hidesIndex, re, TagKey(tag), k);
    }
    hide Touched;
    forall key | key in ck
      ensures !Touched(named, now, hidesIndex, re, CutIndexPrefix(key), k)
    {
      PurgeReturnsOnlyRecorded(tagCells, tagNow, tagHides, names, key);
      if Touched(named, now, hidesIndex, re, CutIndexPrefix(key), k) {
        TouchedBefore(was, named, now, hidesIndex, re, CutIndexPrefix(key), k);
      }
    }
    forall key | key in TagKeys(names)
      ensures !Touched(deleted, now, hidesIndex, re, CutIndexPrefix(key), k)
    {
      var i :| 0 <= i < |names| && key == TagKey(names[i]);
      TagKeyInjective(names[i], names[i]);
      assert names[i] in names;
      if Touched(deleted, now, hidesIndex, re, key, k) {
        TouchedBefore(named, deleted, now, hidesIndex, re, key, k);
        TouchedBefore(was, named, now, hidesIndex, re, key, k);
      }
    }
  }

  class SouinAPI {
    const storers: seq<Storer>
    const tags: BaseStorage
    const regexp: Regexp

    /** The storers are distinct objects that use the same regular-expression engine. */
    ghost predicate Valid() {
      (forall i, j :: 0 <= i < j < |storers| ==> storers[i] != storers[j]) &&
      (forall i :: 0 <= i < |storers| ==> storers[i].regexp == regexp)
    }

    constructor (storers: seq<Storer>, tags: BaseStorage, regexp: Regexp)
      ensures this.storers == storers && this.tags == tags && this.regexp == regexp
    {
      this.storers, this.tags, this.regexp := storers, tags, regexp;
    }

    /** The body of the `BulkDelete` loop. */
    method BulkStep(current: Storer, key: string, purge: bool)
      modifies current`cells
      ensures current.cells == AfterBulkStep(old(current.cells), current.now, current.hidesIndex, current.indexTTL,
                key, purge)
      ensures !purge && Seen(old(current.cells), current.now, current.hidesIndex, IndexKey(key)).Some? &&
              HasBytes(old(current.cells)[IndexKey(key)].value) ==>
                IndexKey(key) in current.cells &&
                current.cells[IndexKey(key)].expires ==
                  if current.indexTTL.For? then Some(current.now + current.indexTTL.duration) else None
    {
      ghost var was := current.cells;
      var b := current.Get(IndexKey(key));
      assert current.cells == AfterGet(was, current.now, IndexKey(key));
      if b.Some? && HasBytes(b.value) {
        var mapping := MappingIn(b.value);
        var todo := mapping.Keys;
        while todo != {}
          invariant todo <= mapping.Keys
          invariant current.cells == AfterGet(was, current.now, IndexKey(key)) - (mapping.Keys - todo)
          decreases todo
        {
          var k :| k in todo;
          todo := todo - {k};
          current.Delete(k);
        }
        assert mapping.Keys - todo == mapping.Keys;
        if !purge {
          current.Set(IndexKey(key), Index(Refreshed(mapping, current.now)), current.indexTTL);
        }
      }
      if purge {
        current.Delete(IndexKey(key));
      }
      current.Delete(key);
    }

    method BulkDelete(key: string, purge: bool)
      requires Valid()
      modifies storers
      ensures forall i :: 0 <= i < |storers| ==> storers[i].now == old(storers[i].now)
      ensures forall i :: 0 <= i < |storers| ==>
                storers[i].cells == AfterBulkDelete(old(storers[i].cells), storers[i].now, storers[i].hidesIndex,
                                                    storers[i].indexTTL, regexp, key, purge)
      ensures forall i :: 0 <= i < |storers| ==>
                DeletesTouched(old(storers[i].cells), storers[i].cells, storers[i].now, storers[i].hidesIndex, regexp,
                               CutIndexPrefix(key), purge)
    {
      hide DeletesTouched;
      var cut := CutIndexPrefix(key);
      for n := 0 to |storers|
        invariant forall i :: 0 <= i < n ==>
                    storers[i].cells == AfterBulkStep(old(storers[i].cells), storers[i].now, storers[i].hidesIndex,
                                                      storers[i].indexTTL, cut, purge)
        invariant forall i :: n <= i < |storers| ==> storers[i].cells == old(storers[i].cells)
        invariant forall i :: 0 <= i < |storers| ==> storers[i].now == old(storers[i].now)
      {
        BulkStep(storers[n], cut, purge);
      }
      label Stepped:
      for n := 0 to |storers|
        invariant forall i :: 0 <= i < n ==> storers[i].cells == AfterDelete(old@Stepped(storers[i].cells), regexp, cut)
        invariant forall i :: n <= i < |storers| ==> storers[i].cells == old@Stepped(storers[i].cells)
        invariant forall i :: 0 <= i < |storers| ==> storers[i].now == old(storers[i].now)
      {
        if !regexp.compiles(cut) {
          storers[n].Delete(cut);
        } else {
          storers[n].DeleteMany(cut);
        }
      }
      forall i | 0 <= i < |storers|
        ensures DeletesTouched(old(storers[i].cells), storers[i].cells, storers[i].now, storers[i].hidesIndex, regexp,
                               cut, purge)
      {
        BulkDeletesTouched(old(storers[i].cells), storers[i].now, storers[i].hidesIndex, storers[i].indexTTL, regexp,
                           key, purge);
      }
    }

    /** The PURGE branch that purges by tag: the cached keys of the named tags, then the tags' own records. */
    method PurgeByTags(header: Header)
      requires Valid()
      modifies storers, tags.storage
      ensures forall tag, key, i | 0 <= i < |storers| && tag in TagsOf(header) && Purgeable(key) ::
                Recorded(old(tags.storage.cells), old(tags.storage.now), tags.storage.hidesIndex, tag,
                    QueryEscape(key)) ==>
                  key !in storers[i].cells
      ensures forall tag :: tag in TagsOf(header) && (!tags.keepStale || tags.storage in storers) ==>
                TagKey(tag) !in tags.storage.cells
      ensures tags.keepStale && tags.storage !in storers ==>
                Forgot(old(tags.storage.cells), tags.storage.cells, old(tags.storage.now))
      ensures forall i :: 0 <= i < |storers| ==> Shrunk(old(storers[i].cells), storers[i].cells)
      ensures forall i, k | 0 <= i < |storers| ::
                Live(old(storers[i].cells), old(storers[i].now), k) &&
                NotPurged(old(tags.storage.cells), old(tags.storage.now), tags.storage.hidesIndex, TagsOf(header),
                          old(storers[i].cells), old(storers[i].now), storers[i].hidesIndex, regexp, k) ==>
                  k in storers[i].cells && storers[i].cells[k] == old(storers[i].cells[k])
    {
      hide TagsOf, Recorded, Forgot, Decoded, QueryEscape, TagKey, ConcatRecords, Touched, NotPurged, Spared, TagKeys;
      var ck, surrogateKeys := tags.Purge(header);
      label Named:
      PurgeReturnsRecorded(old(tags.storage.cells), old(tags.storage.now), tags.storage.hidesIndex, surrogateKeys);
      PurgeKeys(ck);
      label Deleted:
      PurgeTagRecords(surrogateKeys);
      forall i, k | 0 <= i < |storers| && Live(old(storers[i].cells), old(storers[i].now), k) &&
        NotPurged(old(tags.storage.cells), old(tags.storage.now), tags.storage.hidesIndex, TagsOf(header),
                  old(storers[i].cells), old(storers[i].now), storers[i].hidesIndex, regexp, k)
        ensures k in storers[i].cells && storers[i].cells[k] == old(storers[i].cells[k])
      {
        NotPurgedStays(old(tags.storage.cells), old(tags.storage.now), tags.storage.hidesIndex, surrogateKeys, ck,
                       old(storers[i].cells), old@Named(storers[i].cells), old@Deleted(storers[i].cells),
                       storers[i].cells, storers[i].now, storers[i].hidesIndex, regexp, k);
      }
      forall tag, key, i | 0 <= i < |storers| && tag in TagsOf(header) && Purgeable(key) &&
        Recorded(old(tags.storage.cells), old(tags.storage.now), tags.storage.hidesIndex, tag, QueryEscape(key))
        ensures key !in storers[i].cells
      {
        PurgeableComesBack(key);
      }
      if tags.keepStale && tags.storage !in storers {
        StillForgot(old(tags.storage.cells), tags.storage.cells, old(tags.storage.now));
      }
    }

    /** The loop over the purged cache keys. */
    method PurgeKeys(keys: seq<string>)
      requires Valid()
      modifies storers
      ensures forall i :: 0 <= i < |storers| ==>
                storers[i].now == old(storers[i].now) && Shrunk(old(storers[i].cells), storers[i].cells)
      ensures forall i, key :: 0 <= i < |storers| && key in keys ==> CutIndexPrefix(key) !in storers[i].cells
      ensures forall i :: 0 <= i < |storers| ==>
                Spared(old(storers[i].cells), storers[i].cells, storers[i].now, storers[i].hidesIndex, regexp, keys)
    {
      hide DeletesTouched, Touched, Spared;
      forall i | 0 <= i < |storers|
        ensures Spared(storers[i].cells, storers[i].cells, storers[i].now, storers[i].hidesIndex, regexp, [])
      {
        NothingDeleted(storers[i].cells, storers[i].now, storers[i].hidesIndex, regexp);
      }
      for n := 0 to |keys|
        invariant forall i :: 0 <= i < |storers| ==>
                    storers[i].now == old(storers[i].now) && Shrunk(old(storers[i].cells), storers[i].cells)
        invariant forall i, key :: 0 <= i < |storers| && key in keys[..n] ==> CutIndexPrefix(key) !in storers[i].cells
        invariant forall i :: 0 <= i < |storers| ==>
                    Spared(old(storers[i].cells), storers[i].cells, storers[i].now, storers[i].hidesIndex, regexp,
                        keys[..n])
      {
        label Before:
        PurgeEverywhere(keys[n]);
        assert keys[..n + 1] == keys[..n] + [keys[n]];
        forall i | 0 <= i < |storers|
          ensures Spared(old(storers[i].cells), storers[i].cells, storers[i].now, storers[i].hidesIndex, regexp,
                    keys[..n + 1])
        {
          SparedOneMore(old(storers[i].cells), old@Before(storers[i].cells), storers[i].cells, storers[i].now,
                        storers[i].hidesIndex, regexp, keys[..n], keys[n]);
        }
      }
      assert keys[..|keys|] == keys;
    }

    /** The loop over the purged tags. */
    method PurgeTagRecords(names: seq<string>)
      requires Valid()
      modifies storers
      ensures forall i :: 0 <= i < |storers| ==>
                storers[i].now == old(storers[i].now) && Shrunk(old(storers[i].cells), storers[i].cells)
      ensures forall i, tag :: 0 <= i < |storers| && tag in names ==> TagKey(tag) !in storers[i].cells
      ensures forall i :: 0 <= i < |storers| ==>
                Spared(old(storers[i].cells), storers[i].cells, storers[i].now, storers[i].hidesIndex, regexp,
                    TagKeys(names))
    {
      hide DeletesTouched, Touched, Spared;
      forall i | 0 <= i < |storers|
        ensures Spared(storers[i].cells, storers[i].cells, storers[i].now, storers[i].hidesIndex, regexp, [])
      {
        NothingDeleted(storers[i].cells, storers[i].now, storers[i].hidesIndex, regexp);
      }
      assert TagKeys(names[..0]) == [];
      for n := 0 to |names|
        invariant forall i :: 0 <= i < |storers| ==>
                    storers[i].now == old(storers[i].now) && Shrunk(old(storers[i].cells), storers[i].cells)
        invariant forall i, tag :: 0 <= i < |storers| && tag in names[..n] ==> TagKey(tag) !in storers[i].cells
        invariant forall i :: 0 <= i < |storers| ==>
                    Spared(old(storers[i].cells), storers[i].cells, storers[i].now, storers[i].hidesIndex, regexp,
                           TagKeys(names[..n]))
      {
        TagKeyInjective(names[n], names[n]);
        label Before:
        PurgeEverywhere(TagKey(names[n]));
        assert names[..n + 1] == names[..n] + [names[n]];
        assert TagKeys(names[..n + 1]) == TagKeys(names[..n]) + [TagKey(names[n])];
        forall i | 0 <= i < |storers|
          ensures Spared(old(storers[i].cells), storers[i].cells, storers[i].now, storers[i].hidesIndex, regexp,
                         TagKeys(names[..n + 1]))
        {
          SparedOneMore(old(storers[i].cells), old@Before(storers[i].cells), storers[i].cells, storers[i].now,
                        storers[i].hidesIndex, regexp, TagKeys(names[..n]), TagKey(names[n]));
        }
      }
      assert names[..|names|] == names;
    }

    /** `BulkDelete` with purge set: the key is gone from every storer, and nothing is added anywhere. */
    method PurgeEverywhere(key: string)
      requires Valid()
      modifies storers
      ensures forall i :: 0 <= i < |storers| ==>
                storers[i].now == old(storers[i].now) && Shrunk(old(storers[i].cells), storers[i].cells) &&
                CutIndexPrefix(key) !in storers[i].cells && IndexKey(CutIndexPrefix(key)) !in storers[i].cells
      ensures forall i :: 0 <= i < |storers| ==>
                DeletesTouched(old(storers[i].cells), storers[i].cells, storers[i].now, storers[i].hidesIndex, regexp,
                               CutIndexPrefix(key), true)
    {
      hide AfterBulkDelete, DeletesTouched;
      BulkDelete(key, true);
      forall i | 0 <= i < |storers|
        ensures Shrunk(old(storers[i].cells), storers[i].cells) &&
                CutIndexPrefix(key) !in storers[i].cells && IndexKey(CutIndexPrefix(key)) !in storers[i].cells
      {
        PurgeOnlyRemoves(old(storers[i].cells), storers[i].now, storers[i].hidesIndex, storers[i].indexTTL, regexp,
            key);
      }
    }
  }

  lemma NothingDeleted(cells: Cells, now: Time, hidesIndex: bool, re: Regexp)
    ensures Spared(cells, cells, now, hidesIndex, re, [])
  {
  }

  ghost predicate Shrunk(before: Cells, after: Cells) {
    forall k :: k in after ==> k in before && after[k] == before[k]
  }

  lemma StillForgot(before: Cells, after: Cells, now: Time)
    requires Shrunk(before, after) && forall k :: k in before && k !in after ==> !Live(before, now, k)
    ensures Forgot(before, after, now)
  {
  }

  lemma PurgeOnlyRemoves(cells: Cells, now: Time, hidesIndex: bool, ttl: TTL, re: Regexp, key: string)
    ensures var after := AfterBulkDelete(cells, now, hidesIndex, ttl, re, key, true);
            Shrunk(cells, after) && CutIndexPrefix(key) !in after && IndexKey(CutIndexPrefix(key)) !in after
  {
  }

  /** A cache key that survives escaping and the conditional unescape, and is not itself an index key. */
  ghost predicate Purgeable(key: string) {
    IsBytes(key) && key != "" && Survives(key) && !IsIndexKey(key)
  }

  lemma PurgeableComesBack(key: string)
    requires Purgeable(key)
    ensures QueryEscape(key) != "" && Decoded(QueryEscape(key)) == key && !IsIndexKey(key)
  {
    SurvivesExactly(key);
    EscapeAlphabet(key);
  }

  // ---- Bulk deletion is complete

  /** Whatever the storer held: after `BulkDelete` a lookup of the base key answers nothing, for any request at any
      time, when Get returns index entries. */
  lemma BulkDeleteIsComplete(cells: Cells, now: Time, ttl: TTL, re: Regexp, key: string, purge: bool,
                             t: Time, rq: Header, freshRes: Option<Response>, staleRes: Option<Response>)
    requires now <= t
    requires Found(AfterBulkDelete(cells, now, false, ttl, re, key, purge), t, false, CutIndexPrefix(key), rq,
               freshRes, staleRes)
    ensures freshRes.None? && staleRes.None?
  {
    hide ETagRule, SendsStoredValues;
    var base := CutIndexPrefix(key);
    var after := AfterBulkDelete(cells, now, false, ttl, re, key, purge);
    match IndexOf(after, t, base) {
      case None =>
      case Some(m) =>
        forall k | k in m
          ensures Seen(after, t, false, k) == None || !Seen(after, t, false, k).value.Body?
        {
        }
    }
  }

  /** A storer that hides its index entries from Get keeps the index unless it is purged, so there the deletion by
      prefix has to remove the variants: complete, then and later, for every content whose variants extend the base
      key if and only if purge is set or the base key compiles as a regular expression. */
  ghost predicate CompleteWhenHidden(now: Time, ttl: TTL, re: Regexp, key: string, purge: bool) {
    forall t, cells, rq, freshRes, staleRes ::
      now <= t && VariantsExtend(cells, CutIndexPrefix(key)) &&
      Found(AfterBulkDelete(cells, now, true, ttl, re, key, purge), t, true, CutIndexPrefix(key), rq, freshRes,
          staleRes) ==>
        freshRes.None? && staleRes.None?
  }

  ghost predicate VariantsExtend(cells: Cells, base: string) {
    IndexKey(base) in cells && cells[IndexKey(base)].value.Index? ==>
      forall k :: k in cells[IndexKey(base)].value.mapping ==> HasPrefix(k, base)
  }

  lemma HiddenBulkDeleteExactly(now: Time, ttl: TTL, re: Regexp, key: string, purge: bool)
    ensures CompleteWhenHidden(now, ttl, re, key, purge) <==> purge || re.compiles(CutIndexPrefix(key))
  {
    hide ETagRule;
    var base := CutIndexPrefix(key);
    if purge || re.compiles(base) {
      forall t, cells, rq, freshRes, staleRes |
        now <= t && VariantsExtend(cells, base) &&
        Found(AfterBulkDelete(cells, now, true, ttl, re, key, purge), t, true, base, rq, freshRes, staleRes)
        ensures freshRes.None? && staleRes.None?
      {
        HiddenBulkDeleteCompletes(cells, now, ttl, re, key, purge, t, rq, freshRes, staleRes);
      }
    } else {
      var cells, response := SurvivingVariant(now, ttl, re, key);
      assert VariantsExtend(cells, base) &&
             Found(AfterBulkDelete(cells, now, true, ttl, re, key, purge), now, true, base, map[], Some(response),
                 None);
    }
  }

  lemma HiddenBulkDeleteCompletes(cells: Cells, now: Time, ttl: TTL, re: Regexp, key: string, purge: bool,
                                  t: Time, rq: Header, freshRes: Option<Response>, staleRes: Option<Response>)
    requires now <= t && (purge || re.compiles(CutIndexPrefix(key)))
    requires VariantsExtend(cells, CutIndexPrefix(key))
    requires Found(AfterBulkDelete(cells, now, true, ttl, re, key, purge), t, true, CutIndexPrefix(key), rq,
               freshRes, staleRes)
    ensures freshRes.None? && staleRes.None?
  {
    hide ETagRule, SendsStoredValues;
    var base := CutIndexPrefix(key);
    var after := AfterBulkDelete(cells, now, true, ttl, re, key, purge);
    match IndexOf(after, t, base) {
      case None =>
      case Some(m) =>
        forall k | k in m
          ensures k !in after
        {
          assert m == cells[IndexKey(base)].value.mapping;
        }
    }
  }

  /** On such a storer a key like `/a(b`, which does not compile, leaves its other variants behind. */
  lemma SurvivingVariant(now: Time, ttl: TTL, re: Regexp, key: string) returns (cells: Cells, response: Response)
    requires !re.compiles(CutIndexPrefix(key))
    ensures VariantsExtend(cells, CutIndexPrefix(key))
    ensures Found(AfterBulkDelete(cells, now, true, ttl, re, key, false), now, true, CutIndexPrefix(key), map[],
              Some(response), None)
  {
    var base := CutIndexPrefix(key);
    var variant := base + "{-VARY-}";
    response := Response(200, map[], "", NoDate, None, 0, None, None);
    var m: Mapping := map[variant := KeyIndex(now, now + 1, now + 1, map[], "", variant)];
    assert |IndexKey(base)| == |base| + 4 && |variant| == |base| + 8;
    cells := map[IndexKey(base) := Cell(Index(m), None), variant := Cell(Body(response), Some(now + 1))];
    var after := AfterBulkDelete(cells, now, true, ttl, re, key, false);
    assert after == cells;
    assert FreshIn(after, now, true, m, map[], variant);
  }
}
