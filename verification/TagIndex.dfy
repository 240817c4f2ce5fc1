/** The surrogate tags of a `baseStorage`: one record per tag in a storer, holding escaped cache keys. */
module TagIndex {
  import opened Strings
  import opened Wrappers
  import opened UrlEscape
  import opened HttpHeader
  import opened HttpRules
  import opened Messages
  import opened Storage
  import opened TagText

  /** `surrogatePrefix`. */
  const SURROGATE_PREFIX := "SURROGATE_"
  /** `getHeaderSeparator` of the default surrogate storage. */
  const HEADER_SEPARATOR := ", "
  const TAG_HEADERS := ["Cache-Groups", "Surrogate-Key", "Edge-Cache-Tag", "Cache-Tags"]

  function TagKey(tag: string): string {
    SURROGATE_PREFIX + tag
  }

  lemma TagKeyInjective(a: string, b: string)
    ensures TagKey(a) == TagKey(b) ==> a == b
    ensures !IsIndexKey(TagKey(a))
  {
    assert TagKey(a)[10..] == a && TagKey(b)[10..] == b;
    assert TagKey(a)[0] == 'S' && INDEX_PREFIX[0] == 'I';
  }

  /** `ParseHeaders`. */
  function ParseHeaders(value: string): (fields: seq<string>)
    ensures fields != []
  {
    TrimAll(Split(value, HEADER_SEPARATOR))
  }

  /** The tags a request or response names: in its first non-empty tag header. */
  function TagsOf(h: Header): (tags: seq<string>)
    ensures tags != []
  {
    ParseHeaders(CandidateHeader(h, TAG_HEADERS).1)
  }

  /** Only text is ever stored under a tag key. */
  function TextOf(value: Option<Value>): string {
    if value.Some? && value.value.Text? then value.value.text else ""
  }

  /** The record of a tag as the storer returns it. */
  function RecordOf(cells: Cells, now: Time, hidesIndex: bool, tag: string): string {
    TextOf(Seen(cells, now, hidesIndex, TagKey(tag)))
  }

  /** The escaped key is listed in the tag's record. */
  predicate Recorded(cells: Cells, now: Time, hidesIndex: bool, tag: string, escaped: string) {
    escaped in Split(RecordOf(cells, now, hidesIndex, tag), SEPARATOR)
  }

  /** The response may be recorded: no control header, or one that is not all no-store. */
  predicate Storable(h: Header) {
    var controls := ParseHeaders(CandidateHeader(h, CONTROL_HEADERS).1);
    controls == [""] || exists i :: 0 <= i < |controls| && !Contains(controls[i], "no-store")
  }

  /** Only the listed keys, or expired ones, may be missing. */
  ghost predicate LostOnly(before: Cells, after: Cells, now: Time, keys: set<string>) {
    (forall k :: k in after ==> k in before && after[k] == before[k]) &&
    (forall k :: k in before && k !in after ==> k in keys || !Live(before, now, k))
  }

  /** Every named tag's record has gained the key, every other record and every other entry is as it was. */
  ghost predicate Gained(before: Cells, after: Cells, now: Time, hidesIndex: bool, tags: seq<string>, key: string) {
    && (forall tag :: RecordOf(after, now, hidesIndex, tag) ==
                      if tag in tags then WithKey(RecordOf(before, now, hidesIndex, tag), key)
                      else RecordOf(before, now, hidesIndex, tag))
    && (forall k :: (forall tag :: tag in tags ==> k != TagKey(tag)) ==>
                      (k in after <==> k in before) && (k in after ==> after[k] == before[k]))
  }

  /** The named tags' records are gone, unless stale content is kept; otherwise only expired entries may be. */
  ghost predicate Purged(before: Cells, after: Cells, now: Time, keepStale: bool, tags: seq<string>) {
    && (forall k :: k in after ==> k in before && after[k] == before[k])
    && (forall k :: k in before && k !in after ==>
          !Live(before, now, k) || (!keepStale && exists tag :: tag in tags && k == TagKey(tag)))
    && (!keepStale ==> forall tag :: tag in tags ==> TagKey(tag) !in after)
  }

  /** The tags under which a response's key is recorded. */
  function RecordingTags(header: Header, uri: string): seq<string> {
    if Storable(header) then TagsOf(header) + [uri] else []
  }

  /** The split records of the tags, one after the other. */
  function ConcatRecords(cells: Cells, now: Time, hidesIndex: bool, tags: seq<string>): seq<string> {
    if tags == [] then []
    else ConcatRecords(cells, now, hidesIndex, tags[..|tags| - 1]) +
         Split(RecordOf(cells, now, hidesIndex, tags[|tags| - 1]), SEPARATOR)
  }

  // ---- What the headers name

  /** The value of the first tag header that has one. */
  function FirstTagHeader(h: Header): string {
    if Get(h, "Cache-Groups") != "" then Get(h, "Cache-Groups")
    else if Get(h, "Surrogate-Key") != "" then Get(h, "Surrogate-Key")
    else if Get(h, "Edge-Cache-Tag") != "" then Get(h, "Edge-Cache-Tag")
    else Get(h, "Cache-Tags")
  }

  lemma FirstTagHeaderIsCandidate(h: Header)
    ensures CandidateHeader(h, TAG_HEADERS).1 == FirstTagHeader(h)
  {
    hide Get;
    var last := ["Cache-Tags"];
    var lastTwo := ["Edge-Cache-Tag", "Cache-Tags"];
    var lastThree := ["Surrogate-Key", "Edge-Cache-Tag", "Cache-Tags"];
    assert lastTwo[1..] == last && lastThree[1..] == lastTwo && TAG_HEADERS[1..] == lastThree;
    assert CandidateHeader(h, last).1 == Get(h, "Cache-Tags");
    assert CandidateHeader(h, lastTwo).1 ==
           if Get(h, "Edge-Cache-Tag") != "" then Get(h, "Edge-Cache-Tag") else CandidateHeader(h, last).1;
    assert CandidateHeader(h, lastThree).1 ==
           if Get(h, "Surrogate-Key") != "" then Get(h, "Surrogate-Key") else CandidateHeader(h, lastTwo).1;
  }

  /** A list of items as it is written: no item has a comma or white space around it. */
  ghost predicate IsList(items: seq<string>) {
    items != [] && forall item :: item in items ==> ',' !in item && TrimSpace(item) == item
  }

  lemma ParsedList(items: seq<string>)
    requires IsList(items)
    ensures ParseHeaders(Join(items, ", ")) == items
  {
    SplitOfJoinedList(items);
    assert TrimAll(items) == items;
  }

  /** The tags of a request or response are the items of the list in its first tag header. */
  lemma TagsAreListed(h: Header, items: seq<string>)
    requires IsList(items) && FirstTagHeader(h) == Join(items, ", ")
    ensures TagsOf(h) == items
  {
    hide IsList, FirstTagHeader, CandidateHeader, ParseHeaders;
    FirstTagHeaderIsCandidate(h);
    ParsedList(items);
  }

  /** A response is recorded if and only if its first control header is empty or one of its items does not say
      no-store. */
  lemma StorableExactly(h: Header, items: seq<string>)
    requires IsList(items) && FirstControl(h) == Join(items, ", ")
    ensures Storable(h) <==>
            items == [""] || exists item :: item in items && !Reads(item, "no-store")
  {
    hide IsList, FirstControl, CandidateHeader, ParseHeaders, Contains, Reads;
    FirstControlIsCandidate(h);
    ParsedList(items);
    forall item
      ensures Contains(item, "no-store") <==> Reads(item, "no-store")
    {
      ContainsReads(item, "no-store");
    }
    if item :| item in items && !Reads(item, "no-store") {
      var n :| 0 <= n < |items| && items[n] == item;
      assert !Contains(items[n], "no-store");
    }
    if n :| 0 <= n < |items| && !Contains(items[n], "no-store") {
      assert items[n] in items && !Reads(items[n], "no-store");
    }
  }

  class BaseStorage {
    const storage: Storer
    const keepStale: bool
    const duration: TTL

    constructor (storage: Storer, keepStale: bool, duration: TTL)
      ensures this.storage == storage && this.keepStale == keepStale && this.duration == duration
    {
      this.storage, this.keepStale, this.duration := storage, keepStale, duration;
    }

    /** Appends the key to the tag's record unless it is listed there. */
    method StoreTag(tag: string, cacheKey: string)
      requires duration.For? ==> duration.duration > 0
      modifies storage`cells
      ensures forall k :: k != TagKey(tag) ==> (k in storage.cells <==> k in old(storage.cells)) &&
                                               (k in storage.cells ==> storage.cells[k] == old(storage.cells[k]))
      ensures RecordOf(storage.cells, storage.now, storage.hidesIndex, tag) ==
              WithKey(RecordOf(old(storage.cells), storage.now, storage.hidesIndex, tag), cacheKey)
      ensures ContainsCacheKey(RecordOf(old(storage.cells), storage.now, storage.hidesIndex, tag), cacheKey) ==>
                storage.cells == old(storage.cells)
      ensures !ContainsCacheKey(RecordOf(old(storage.cells), storage.now, storage.hidesIndex, tag), cacheKey) ==>
                TagKey(tag) in storage.cells && storage.cells[TagKey(tag)].value.Text? &&
                storage.cells[TagKey(tag)].expires ==
                  if duration.For? then Some(storage.now + duration.duration) else None
    {
      ghost var was := storage.cells;
      var got := storage.Get(TagKey(tag));
      var currentValue := TextOf(got);
      ForgotSeen(was, storage.cells, storage.now, storage.hidesIndex, TagKey(tag));
      if !ContainsCacheKey(currentValue, cacheKey) {
        if currentValue == "" {
          currentValue := cacheKey;
        } else {
          currentValue := currentValue + SEPARATOR + cacheKey;
        }
        storage.Set(TagKey(tag), Text(currentValue), duration);
      }
    }

    /** Records the escaped cache key under every tag of a storable response and under its URI, and nowhere else. */
    method Store(header: Header, cacheKey: string, uri: string)
      requires IsBytes(cacheKey) && (duration.For? ==> duration.duration > 0)
      modifies storage`cells
      ensures Gained(old(storage.cells), storage.cells, storage.now, storage.hidesIndex,
                     RecordingTags(header, uri), QueryEscape(cacheKey))
      ensures cacheKey != "" ==>
                forall tag, k :: k != "" ==>
                  (Recorded(storage.cells, storage.now, storage.hidesIndex, tag, k) <==>
                   Recorded(old(storage.cells), storage.now, storage.hidesIndex, tag, k) ||
                   (Storable(header) && (tag in TagsOf(header) || tag == uri) && k == QueryEscape(cacheKey)))
    {
      hide CandidateHeader, ParseHeaders, Contains, Gained, QueryEscape, Recorded, TagsOf;
      ghost var was, now, hides := storage.cells, storage.now, storage.hidesIndex;
      var escaped := QueryEscape(cacheKey);
      var keys := TagsOf(header);
      var controls := ParseHeaders(CandidateHeader(header, CONTROL_HEADERS).1);
      var storable := |controls| == 1 && controls[0] == "";
      if !storable {
        storable := SomeCandidate(controls);
      }
      assert storable == Storable(header);
      GainedNothing(was, now, hides, escaped);
      for n := 0 to |keys|
        invariant Gained(was, storage.cells, now, hides,
                         if storable && n > 0 then keys[..n] + [uri] else [], escaped)
      {
        if storable {
          ghost var before := storage.cells;
          StoreTag(keys[n], escaped);
          ghost var between := storage.cells;
          GainedOne(before, between, now, hides, keys[n], escaped);
          StoreTag(uri, escaped);
          GainedOne(between, storage.cells, now, hides, uri, escaped);
          GainedBoth(before, between, storage.cells, now, hides, [keys[n]], [uri], escaped);
          GainedBoth(was, before, storage.cells, now, hides, if n > 0 then keys[..n] + [uri] else [],
              [keys[n]] + [uri], escaped);
          GainedSame(was, storage.cells, now, hides, (if n > 0 then keys[..n] + [uri] else []) + ([keys[n]] + [uri]),
                     keys[..n + 1] + [uri], escaped);
        }
      }
      assert keys[..|keys|] == keys;
      if cacheKey != "" {
        GainedMeans(was, storage.cells, now, hides, RecordingTags(header, uri), cacheKey);
      }
    }

    /** `candidateStore` on each control in turn. */
    static method SomeCandidate(controls: seq<string>) returns (found: bool)
      ensures found <==> exists i :: 0 <= i < |controls| && !Contains(controls[i], "no-store")
    {
      for i := 0 to |controls|
        invariant forall j :: 0 <= j < i ==> Contains(controls[j], "no-store")
      {
        if !Contains(controls[i], "no-store") {
          return true;
        }
      }
      return false;
    }

    /** Returns the tag's keys; the record is deleted only when stale content is not kept. */
    method PurgeTag(tag: string) returns (keys: seq<string>)
      modifies storage`cells
      ensures keys == Split(RecordOf(old(storage.cells), storage.now, storage.hidesIndex, tag), SEPARATOR)
      ensures LostOnly(old(storage.cells), storage.cells, storage.now, if keepStale then {} else {TagKey(tag)})
      ensures !keepStale ==> TagKey(tag) !in storage.cells
    {
      hide Split;
      var toInvalidate := storage.Get(TagKey(tag));
      if !keepStale {
        storage.Delete(TagKey(tag));
      }
      keys := Split(TextOf(toInvalidate), SEPARATOR);
    }

    /** `Purge`: the cache keys of every tag the header names, decoded, each once, and the tags. */
    method Purge(header: Header) returns (cacheKeys: seq<string>, surrogateKeys: seq<string>)
      modifies storage`cells
      ensures surrogateKeys == TagsOf(header)
      ensures cacheKeys == DecodedAll(Distinct(NonEmpty(
                ConcatRecords(old(storage.cells), storage.now, storage.hidesIndex, surrogateKeys))))
      ensures Purged(old(storage.cells), storage.cells, storage.now, keepStale, surrogateKeys)
    {
      hide Split, TagsOf, ConcatRecords, RecordOf, Distinct, NonEmpty;
      ghost var was, now, hides := storage.cells, storage.now, storage.hidesIndex;
      surrogateKeys := TagsOf(header);
      var toInvalidate: seq<string> := [];
      NothingConcatenated(was, now, hides);
      for n := 0 to |surrogateKeys|
        invariant Distinct(NonEmpty(toInvalidate)) ==
                  Distinct(NonEmpty(ConcatRecords(was, now, hides, surrogateKeys[..n])))
        invariant forall k :: k in storage.cells ==> k in was && storage.cells[k] == was[k]
        invariant forall k :: k in was && k !in storage.cells ==>
                    !Live(was, now, k) || (!keepStale && exists tag :: tag in surrogateKeys[..n] && k == TagKey(tag))
        invariant !keepStale ==> forall tag :: tag in surrogateKeys[..n] ==> TagKey(tag) !in storage.cells
      {
        var tag := surrogateKeys[n];
        ghost var before := storage.cells;
        assert surrogateKeys[..n + 1] == surrogateKeys[..n] + [tag];
        var keys := PurgeTag(tag);
        if tag !in surrogateKeys[..n] {
          RecordUntouched(was, before, now, hides, surrogateKeys[..n], tag);
        }
        RepeatedTagAddsNothing(was, before, now, hides, surrogateKeys[..n], tag, toInvalidate);
        toInvalidate := toInvalidate + keys;
      }
      assert surrogateKeys[..|surrogateKeys|] == surrogateKeys;
      cacheKeys := UniqueTag(toInvalidate);
    }
  }

  lemma WithKeyTwice(text: string, key: string)
    ensures WithKey(WithKey(text, key), key) == WithKey(text, key)
  {
    hide Contains;
  }

  lemma GainedNothing(cells: Cells, now: Time, hides: bool, key: string)
    ensures Gained(cells, cells, now, hides, [], key)
  {
  }

  lemma GainedOne(before: Cells, after: Cells, now: Time, hides: bool, tag: string, key: string)
    requires forall k :: k != TagKey(tag) ==> (k in after <==> k in before) && (k in after ==> after[k] == before[k])
    requires RecordOf(after, now, hides, tag) == WithKey(RecordOf(before, now, hides, tag), key)
    ensures Gained(before, after, now, hides, [tag], key)
  {
    hide WithKey;
    forall t
      ensures t != tag ==> RecordOf(after, now, hides, t) == RecordOf(before, now, hides, t)
    {
      TagKeyInjective(t, tag);
    }
    forall k | forall t :: t in [tag] ==> k != TagKey(t)
      ensures (k in after <==> k in before) && (k in after ==> after[k] == before[k])
    {
      assert tag in [tag];
    }
  }

  /** Recording under some tags and then under more; a tag named twice gains the key once. */
  lemma GainedBoth(a: Cells, b: Cells, c: Cells, now: Time, hides: bool, tags: seq<string>, more: seq<string>,
                   key: string)
    requires Gained(a, b, now, hides, tags, key) && Gained(b, c, now, hides, more, key)
    ensures Gained(a, c, now, hides, tags + more, key)
  {
    hide WithKey, RecordOf, TagKey;
    forall tag
      ensures RecordOf(c, now, hides, tag) == if tag in tags + more then WithKey(RecordOf(a, now, hides, tag), key)
                                              else RecordOf(a, now, hides, tag)
    {
      WithKeyTwice(RecordOf(a, now, hides, tag), key);
    }
    forall k | forall tag :: tag in tags + more ==> k != TagKey(tag)
      ensures (k in c <==> k in a) && (k in c ==> c[k] == a[k])
    {
      assert forall tag :: tag in tags || tag in more ==> tag in tags + more;
    }
  }

  lemma GainedSame(a: Cells, b: Cells, now: Time, hides: bool, tags: seq<string>, same: seq<string>, key: string)
    requires Gained(a, b, now, hides, tags, key)
    requires forall tag :: tag in tags <==> tag in same
    ensures Gained(a, b, now, hides, same, key)
  {
    hide WithKey, RecordOf, TagKey;
  }

  /** Recording keeps every recorded key and adds the new one under exactly the named tags. */
  lemma GainedMeans(before: Cells, after: Cells, now: Time, hides: bool, tags: seq<string>, cacheKey: string)
    requires IsBytes(cacheKey) && cacheKey != "" && Gained(before, after, now, hides, tags, QueryEscape(cacheKey))
    ensures forall tag, k :: k != "" ==>
              (Recorded(after, now, hides, tag, k) <==>
               Recorded(before, now, hides, tag, k) || (tag in tags && k == QueryEscape(cacheKey)))
  {
    hide WithKey, RecordOf, QueryEscape, Split, IsBytes;
    EscapeAlphabet(cacheKey);
    forall tag, k | k != ""
      ensures Recorded(after, now, hides, tag, k) <==>
              Recorded(before, now, hides, tag, k) || (tag in tags && k == QueryEscape(cacheKey))
    {
      WithKeyLists(RecordOf(before, now, hides, tag), QueryEscape(cacheKey), k);
    }
  }

  /** The record lists the key and what it listed before, and nothing else. */
  lemma WithKeyLists(text: string, key: string, k: string)
    requires key != "" && ',' !in key && k != ""
    ensures k in Split(WithKey(text, key), SEPARATOR) <==> k in Split(text, SEPARATOR) || k == key
  {
    if text == "" {
      SplitWithoutSeparator(key, ',');
      assert Split("", SEPARATOR) == [""];
    } else {
      ContainsIsMembership(text, key);
      SplitAtSeparator(text, ',', key);
      SplitWithoutSeparator(key, ',');
    }
  }

  /** A tag not purged yet still has the record it had. */
  lemma RecordUntouched(was: Cells, before: Cells, now: Time, hides: bool, purged: seq<string>, tag: string)
    requires tag !in purged
    requires forall k :: k in before ==> k in was && before[k] == was[k]
    requires forall k :: k in was && k !in before ==> !Live(was, now, k) || exists t :: t in purged && k == TagKey(t)
    ensures RecordOf(before, now, hides, tag) == RecordOf(was, now, hides, tag)
  {
    forall t | t in purged
      ensures TagKey(t) != TagKey(tag)
    {
      TagKeyInjective(t, tag);
    }
  }

  lemma {:induction false} NonEmptyKeeps(items: seq<string>)
    ensures forall x :: x in NonEmpty(items) <==> x in items && x != ""
  {
    if items != [] {
      NonEmptyKeeps(items[..|items| - 1]);
      assert items == items[..|items| - 1] + [items[|items| - 1]];
    }
  }

  /** Items that are already there, or empty, add nothing to the distinct non-empty items. */
  lemma {:induction false} AddsNothing(items: seq<string>, more: seq<string>)
    requires forall x :: x in more ==> x == "" || x in items
    ensures Distinct(NonEmpty(items + more)) == Distinct(NonEmpty(items))
  {
    if more == [] {
      assert items + more == items;
    } else {
      var front, last := more[..|more| - 1], more[|more| - 1];
      assert last in more && forall x :: x in front ==> x in more;
      AddsNothing(items, front);
      assert (items + more)[..|items + more| - 1] == items + front;
      if last != "" {
        NonEmptyKeeps(items);
        DistinctProperties(NonEmpty(items));
        DistinctLast(NonEmpty(items + front), last);
      }
    }
  }

  /** Appending the same items keeps two lists alike. */
  lemma {:induction false} AppendAlike(a: seq<string>, b: seq<string>, more: seq<string>)
    requires Distinct(NonEmpty(a)) == Distinct(NonEmpty(b))
    ensures Distinct(NonEmpty(a + more)) == Distinct(NonEmpty(b + more))
  {
    if more == [] {
      assert a + more == a && b + more == b;
    } else {
      var front, last := more[..|more| - 1], more[|more| - 1];
      AppendAlike(a, b, front);
      assert (a + more)[..|a + more| - 1] == a + front && (b + more)[..|b + more| - 1] == b + front;
      DistinctLast(NonEmpty(a + front), last);
      DistinctLast(NonEmpty(b + front), last);
    }
  }

  /** A tag named again contributes the record it had, or nothing when that was deleted: either way nothing new. */
  lemma RepeatedTagAddsNothing(was: Cells, before: Cells, now: Time, hides: bool, purged: seq<string>, tag: string,
                               items: seq<string>)
    requires Distinct(NonEmpty(items)) == Distinct(NonEmpty(ConcatRecords(was, now, hides, purged)))
    requires forall k :: k in before ==> k in was && before[k] == was[k]
    requires tag !in purged ==> RecordOf(before, now, hides, tag) == RecordOf(was, now, hides, tag)
    ensures Distinct(NonEmpty(items + Split(RecordOf(before, now, hides, tag), SEPARATOR))) ==
            Distinct(NonEmpty(ConcatRecords(was, now, hides, purged + [tag])))
  {
    hide Split, Distinct, NonEmpty, RecordOf;
    var all := ConcatRecords(was, now, hides, purged);
    var kept, current := Split(RecordOf(was, now, hides, tag), SEPARATOR),
      Split(RecordOf(before, now, hides, tag), SEPARATOR);
    assert (purged + [tag])[..|purged|] == purged;
    AppendAlike(items, all, current);
    if tag in purged {
      RecordSameOrGone(was, before, now, hides, tag);
      PurgedItemsPresent(was, now, hides, purged, tag);
      AddsNothing(all, current);
      AddsNothing(all, kept);
    }
  }

  lemma RecordSameOrGone(was: Cells, before: Cells, now: Time, hides: bool, tag: string)
    requires forall k :: k in before ==> k in was && before[k] == was[k]
    ensures forall x :: x in Split(RecordOf(before, now, hides, tag), SEPARATOR) ==>
              x == "" || x in Split(RecordOf(was, now, hides, tag), SEPARATOR)
  {
    if RecordOf(before, now, hides, tag) != RecordOf(was, now, hides, tag) {
      assert RecordOf(before, now, hides, tag) == "";
      assert Split("", SEPARATOR) == [""];
    }
  }

  lemma {:induction false} PurgedItemsPresent(was: Cells, now: Time, hides: bool, purged: seq<string>, tag: string)
    requires tag in purged
    ensures forall x :: x in Split(RecordOf(was, now, hides, tag), SEPARATOR) ==>
            x in ConcatRecords(was, now, hides, purged)
  {
    hide Split, RecordOf;
    if tag != purged[|purged| - 1] {
      PurgedItemsPresent(was, now, hides, purged[..|purged| - 1], tag);
    }
  }

  lemma NothingConcatenated(was: Cells, now: Time, hides: bool)
    ensures ConcatRecords(was, now, hides, []) == []
  {
  }

  /** Every item recorded under a purged tag is returned, decoded. */
  lemma PurgeReturnsRecorded(was: Cells, now: Time, hides: bool, purged: seq<string>)
    ensures forall tag, item | tag in purged && item != "" ::
              Recorded(was, now, hides, tag, item) ==>
                Decoded(item) in DecodedAll(Distinct(NonEmpty(ConcatRecords(was, now, hides, purged))))
  {
    hide Split, Distinct, NonEmpty, RecordOf, Decoded;
    UniqueKeepsAll(ConcatRecords(was, now, hides, purged));
    forall tag, item | tag in purged && item != "" && Recorded(was, now, hides, tag, item)
      ensures item in ConcatRecords(was, now, hides, purged)
    {
      PurgedItemsPresent(was, now, hides, purged, tag);
    }
  }

  lemma {:induction false} ConcatenatedIsRecorded(cells: Cells, now: Time, hides: bool, tags: seq<string>, item: string)
    requires item in ConcatRecords(cells, now, hides, tags)
    ensures exists tag :: tag in tags && Recorded(cells, now, hides, tag, item)
  {
    hide Split, RecordOf;
    var front, last := tags[..|tags| - 1], tags[|tags| - 1];
    if item in ConcatRecords(cells, now, hides, front) {
      ConcatenatedIsRecorded(cells, now, hides, front, item);
      var tag :| tag in front && Recorded(cells, now, hides, tag, item);
      assert tag in tags;
    } else {
      assert last in tags && Recorded(cells, now, hides, last, item);
    }
  }

  /** Whatever `Purge` returns was recorded under one of the purged tags. */
  lemma PurgeReturnsOnlyRecorded(cells: Cells, now: Time, hides: bool, tags: seq<string>, key: string)
    requires key in DecodedAll(Distinct(NonEmpty(ConcatRecords(cells, now, hides, tags))))
    ensures exists tag, item ::
              tag in tags && item != "" && Recorded(cells, now, hides, tag, item) && Decoded(item) == key
  {
    hide ConcatRecords, Distinct, NonEmpty, Decoded, Recorded;
    var items := ConcatRecords(cells, now, hides, tags);
    var distinct := Distinct(NonEmpty(items));
    var i :| 0 <= i < |distinct| && Decoded(distinct[i]) == key;
    DistinctProperties(NonEmpty(items));
    NonEmptyKeeps(items);
    ConcatenatedIsRecorded(cells, now, hides, tags, distinct[i]);
  }

  lemma UniqueKeepsAll(items: seq<string>)
    ensures forall x :: x in items && x != "" ==> Decoded(x) in DecodedAll(Distinct(NonEmpty(items)))
  {
    NonEmptyKeeps(items);
    DistinctProperties(NonEmpty(items));
    var d := Distinct(NonEmpty(items));
    forall x | x in items && x != ""
      ensures Decoded(x) in DecodedAll(d)
    {
      var i :| 0 <= i < |d| && d[i] == x;
      assert DecodedAll(d)[i] == Decoded(x);
    }
  }

  // ---- Store, then purge any number of tags

  function Flatten(lists: seq<seq<string>>): seq<string> {
    if lists == [] then [] else Flatten(lists[..|lists| - 1]) + lists[|lists| - 1]
  }

  /** The record of every tag was built by storing the keys of the corresponding list. */
  ghost predicate RecordsBuilt(cells: Cells, now: Time, hides: bool, tags: seq<string>, lists: seq<seq<string>>) {
    |tags| == |lists| &&
    forall i :: 0 <= i < |tags| ==>
      AllBytes(lists[i]) && "" !in lists[i] && RecordOf(cells, now, hides, tags[i]) == Record(EscapedAll(lists[i]))
  }

  lemma {:induction false} AppendDistinct<T>(a: seq<T>, b: seq<T>)
    ensures Distinct(a + Distinct(b)) == Distinct(a + b)
  {
    if b != [] {
      var front, last := b[..|b| - 1], b[|b| - 1];
      AppendDistinct(a, front);
      assert a + b == (a + front) + [last];
      DistinctLast(a + front, last);
      if last in Distinct(front) {
        DistinctProperties(front);
        DistinctProperties(a + front);
      } else {
        assert a + Distinct(b) == (a + Distinct(front)) + [last];
        DistinctLast(a + Distinct(front), last);
      }
    }
  }

  lemma {:induction false} FlattenBytes(lists: seq<seq<string>>)
    requires forall i :: 0 <= i < |lists| ==> AllBytes(lists[i]) && "" !in lists[i]
    ensures AllBytes(Flatten(lists)) && "" !in Flatten(lists)
  {
    if lists != [] {
      FlattenBytes(lists[..|lists| - 1]);
    }
  }

  lemma {:induction false} NonEmptyAppend(a: seq<string>, b: seq<string>)
    ensures NonEmpty(a + b) == NonEmpty(a) + NonEmpty(b)
  {
    if b == [] {
      assert a + b == a;
    } else {
      NonEmptyAppend(a, b[..|b| - 1]);
      assert (a + b)[..|a + b| - 1] == a + b[..|b| - 1];
    }
  }

  /** The items of one record, as far as they matter, are its distinct escaped keys. */
  lemma RecordItems(keys: seq<string>)
    requires AllBytes(keys) && "" !in keys
    ensures NonEmpty(Split(Record(EscapedAll(keys)), SEPARATOR)) == Distinct(EscapedAll(keys))
    ensures NonEmpty(EscapedAll(keys)) == EscapedAll(keys)
  {
    var items := EscapedAll(keys);
    EscapedKeysAreCleanItems(keys);
    RecordIsOrderedSet(items);
    DistinctProperties(items);
    NonEmptyIdentity(items);
    NonEmptyIdentity(Distinct(items));
    if keys == [] {
      assert Split("", SEPARATOR) == [""] && NonEmpty([""]) == [];
    }
  }

  lemma {:induction false} ConcatenatedRecords(cells: Cells, now: Time, hides: bool, tags: seq<string>,
                                               lists: seq<seq<string>>)
    requires RecordsBuilt(cells, now, hides, tags, lists)
    ensures AllBytes(Flatten(lists)) && "" !in Flatten(lists)
    ensures Distinct(NonEmpty(ConcatRecords(cells, now, hides, tags))) == Distinct(EscapedAll(Flatten(lists)))
  {
    hide Split, QueryEscape, RecordOf, Record, IsBytes;
    FlattenBytes(lists);
    if tags == [] {
      NothingConcatenated(cells, now, hides);
    } else {
      var n := |tags| - 1;
      ConcatenatedRecords(cells, now, hides, tags[..n], lists[..n]);
      RecordAppended(ConcatRecords(cells, now, hides, tags[..n]), RecordOf(cells, now, hides, tags[n]),
                     Flatten(lists[..n]), lists[n]);
    }
  }

  /** One more tag: its record's items come after those of the tags before. */
  lemma RecordAppended(before: seq<string>, record: string, flat: seq<string>, keys: seq<string>)
    requires AllBytes(flat) && "" !in flat && AllBytes(keys) && "" !in keys
    requires Distinct(NonEmpty(before)) == Distinct(EscapedAll(flat)) && record == Record(EscapedAll(keys))
    ensures AllBytes(flat + keys)
    ensures Distinct(NonEmpty(before + Split(record, SEPARATOR))) == Distinct(EscapedAll(flat + keys))
  {
    hide Split, QueryEscape, Record, IsBytes, Distinct, NonEmpty;
    EscapedAppend(flat, keys);
    hide EscapedAll;
    RecordItems(keys);
    RecordItems(flat);
    AppendItems(before, Split(record, SEPARATOR), EscapedAll(flat), EscapedAll(keys));
  }

  lemma AppendItems(before: seq<string>, items: seq<string>, flat: seq<string>, escaped: seq<string>)
    requires Distinct(NonEmpty(before)) == Distinct(flat) && NonEmpty(flat) == flat
    requires NonEmpty(items) == Distinct(escaped)
    ensures Distinct(NonEmpty(before + items)) == Distinct(flat + escaped)
  {
    hide Distinct, NonEmpty;
    AppendAlike(before, flat, items);
    NonEmptyAppend(flat, items);
    AppendDistinct(flat, escaped);
  }

  /** What `Purge` returns for tags whose records were built by storing lists of keys: every original key, exactly
      once, in order, if and only if each of them survives the conditional unescape. */
  lemma PurgeReturnsOriginals(cells: Cells, now: Time, hides: bool, tags: seq<string>, lists: seq<seq<string>>)
    requires RecordsBuilt(cells, now, hides, tags, lists)
    ensures AllBytes(Flatten(lists))
    ensures DecodedAll(Distinct(NonEmpty(ConcatRecords(cells, now, hides, tags)))) == Distinct(Flatten(lists)) <==>
            forall k :: k in Flatten(lists) ==> IsBytes(k) && Survives(k)
  {
    hide Split, QueryEscape, RecordOf, Survives, IsBytes, Decoded;
    ConcatenatedRecords(cells, now, hides, tags, lists);
    var keys := Flatten(lists);
    DistinctOfEscaped(keys);
    PurgedKeysAre(keys);
    StoreThenPurge(keys);
  }

  // ---- ... over any run of Store calls

  datatype TagEvent =
    | Recording(header: Header, cacheKey: string, uri: string)     // Store
    | Purging(keepStale: bool, header: Header)                     // Purge
    | Passing                                                      // time and deletions: records may go

  datatype TagState = TagState(cells: Cells, now: Time)

  ghost predicate KeptOrGone(hides: bool, a: TagState, b: TagState, tag: string) {
    RecordOf(b.cells, b.now, hides, tag) == RecordOf(a.cells, a.now, hides, tag) ||
      RecordOf(b.cells, b.now, hides, tag) == ""
  }

  ghost predicate TagStep(hides: bool, a: TagState, e: TagEvent, b: TagState) {
    match e
    case Recording(header, cacheKey, uri) =>
      IsBytes(cacheKey) && cacheKey != "" && a.now == b.now &&
      Gained(a.cells, b.cells, a.now, hides, RecordingTags(header, uri), QueryEscape(cacheKey))
    case Purging(keepStale, header) => a.now == b.now && Purged(a.cells, b.cells, a.now, keepStale, TagsOf(header))
    case Passing => forall tag :: KeptOrGone(hides, a, b, tag)
  }

  /** The states of a run that starts without any record. */
  ghost predicate TagRun(hides: bool, states: seq<TagState>, events: seq<TagEvent>) {
    && |states| == |events| + 1
    && (forall tag :: RecordOf(states[0].cells, states[0].now, hides, tag) == "")
    && forall j :: 0 <= j < |events| ==> TagStep(hides, states[j], events[j], states[j + 1])
  }

  /** The cache keys stored under a tag in the first `n` events, since its record was last lost. */
  ghost function KeysUnder(hides: bool, states: seq<TagState>, events: seq<TagEvent>, tag: string,
                           n: nat): (keys: seq<string>)
    requires TagRun(hides, states, events) && n <= |events|
    ensures AllBytes(keys) && "" !in keys
  {
    if n == 0 then []
    else
      var before := KeysUnder(hides, states, events, tag, n - 1);
      assert TagStep(hides, states[n - 1], events[n - 1], states[n]);
      match events[n - 1]
      case Recording(header, cacheKey, uri) => if tag in RecordingTags(header, uri) then before + [cacheKey] else before
      case Purging(keepStale, header) => if !keepStale && tag in TagsOf(header) then [] else before
      case Passing => if RecordOf(states[n].cells, states[n].now, hides, tag) == "" then [] else before
  }

  lemma RecordOfOneMore(keys: seq<string>, key: string)
    requires AllBytes(keys) && IsBytes(key)
    ensures AllBytes(keys + [key])
    ensures Record(EscapedAll(keys + [key])) == WithKey(Record(EscapedAll(keys)), QueryEscape(key))
  {
    hide QueryEscape, IsBytes, WithKey;
    EscapedAppend(keys, [key]);
    assert EscapedAll([key]) == [QueryEscape(key)];
    assert (EscapedAll(keys) + [QueryEscape(key)])[..|keys|] == EscapedAll(keys);
  }

  /** A tag's record is what storing its keys one after the other makes of an empty one. */
  lemma {:induction false} RecordIsBuilt(hides: bool, states: seq<TagState>, events: seq<TagEvent>, tag: string, n: nat)
    requires TagRun(hides, states, events) && n <= |events|
    ensures RecordOf(states[n].cells, states[n].now, hides, tag) ==
            Record(EscapedAll(KeysUnder(hides, states, events, tag, n)))
  {
    hide RecordOf, QueryEscape, WithKey, RecordingTags, IsBytes, EscapedAll;
    if n == 0 {
      NoKeysNoRecord();
    } else {
      RecordIsBuilt(hides, states, events, tag, n - 1);
      assert TagStep(hides, states[n - 1], events[n - 1], states[n]);
      var before := KeysUnder(hides, states, events, tag, n - 1);
      if events[n - 1].Recording? {
        RecordOfOneMore(before, events[n - 1].cacheKey);
      } else if events[n - 1].Purging? {
        RecordAfterPurge(states[n - 1].cells, states[n].cells, states[n].now, hides, events[n - 1].keepStale,
                         TagsOf(events[n - 1].header), tag);
        NoKeysNoRecord();
      } else {
        assert KeptOrGone(hides, states[n - 1], states[n], tag);
        NoKeysNoRecord();
      }
    }
  }

  /** A purge deletes the records of its tags, if it deletes any, and leaves every other record. */
  lemma RecordAfterPurge(a: Cells, b: Cells, now: Time, hides: bool, keepStale: bool, tags: seq<string>, tag: string)
    requires Purged(a, b, now, keepStale, tags)
    ensures RecordOf(b, now, hides, tag) == if !keepStale && tag in tags then "" else RecordOf(a, now, hides, tag)
  {
    forall t | t in tags && t != tag
      ensures TagKey(t) != TagKey(tag)
    {
      TagKeyInjective(t, tag);
    }
  }

  lemma NoKeysNoRecord()
    ensures Record(EscapedAll([])) == ""
  {
  }

  ghost function KeysUnderAll(hides: bool, states: seq<TagState>, events: seq<TagEvent>, tags: seq<string>, n: nat):
      (lists: seq<seq<string>>)
    requires TagRun(hides, states, events) && n <= |events|
    ensures |lists| == |tags|
  {
    seq(|tags|, i requires 0 <= i < |tags| => KeysUnder(hides, states, events, tags[i], n))
  }

  /** At any point of any run of Store calls, purges and losses: `Purge` of any tags returns every key stored under them
      since their records were last purged or lost, exactly once, in order, if and only if each of them survives the
      conditional unescape. */
  lemma StoredKeysArePurged(hides: bool, states: seq<TagState>, events: seq<TagEvent>, tags: seq<string>, n: nat)
    requires TagRun(hides, states, events) && n <= |events|
    ensures var at, keys := states[n], Flatten(KeysUnderAll(hides, states, events, tags, n));
            AllBytes(keys) &&
            (DecodedAll(Distinct(NonEmpty(ConcatRecords(at.cells, at.now, hides, tags)))) == Distinct(keys) <==>
             forall k :: k in keys ==> IsBytes(k) && Survives(k))
  {
    hide RecordOf, Record, EscapedAll, IsBytes, Survives, ConcatRecords, Flatten, KeysUnder;
    var at := states[n];
    var lists := KeysUnderAll(hides, states, events, tags, n);
    forall i | 0 <= i < |tags|
      ensures RecordOf(at.cells, at.now, hides, tags[i]) == Record(EscapedAll(lists[i]))
    {
      RecordIsBuilt(hides, states, events, tags[i], n);
    }
    assert RecordsBuilt(at.cells, at.now, hides, tags, lists);
    PurgeReturnsOriginals(at.cells, at.now, hides, tags, lists);
  }

  /** Time passing and any deletions, those of `BulkDelete` or an eviction included, are steps of such runs. */
  lemma LossIsPassing(hides: bool, a: TagState, b: TagState)
    requires a.now <= b.now && forall k :: k in b.cells ==> k in a.cells && b.cells[k] == a.cells[k]
    ensures TagStep(hides, a, Passing, b)
  {
  }
}
