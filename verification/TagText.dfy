/** A surrogate tag's record: escaped cache keys joined by commas, used as an ordered set. */
module TagText {
  import opened Strings
  import opened UrlEscape

  const SEPARATOR := ","

  /** `containsCacheKey`: the four position tests on the raw text. */
  predicate ContainsCacheKey(currentValue: string, cacheKey: string) {
    if currentValue == "" then false
    else if currentValue == cacheKey then true
    else if HasPrefix(currentValue, cacheKey + SEPARATOR) then true
    else if HasSuffix(currentValue, SEPARATOR + cacheKey) then true
    else Contains(currentValue, SEPARATOR + cacheKey + SEPARATOR)
  }

  /** The text `storeTag` leaves under a tag that held `currentValue`. */
  function WithKey(currentValue: string, cacheKey: string): string {
    if ContainsCacheKey(currentValue, cacheKey) then currentValue
    else if currentValue == "" then cacheKey
    else currentValue + SEPARATOR + cacheKey
  }

  /** The text after a sequence of `storeTag` calls on a new tag. */
  function Record(keys: seq<string>): string {
    if keys == [] then "" else WithKey(Record(keys[..|keys| - 1]), keys[|keys| - 1])
  }

  /** The four position tests are membership in the comma split. */
  lemma ContainsIsMembership(currentValue: string, cacheKey: string)
    requires currentValue != "" && ',' !in cacheKey
    ensures ContainsCacheKey(currentValue, cacheKey) <==> cacheKey in Split(currentValue, SEPARATOR)
  {
    if ContainsCacheKey(currentValue, cacheKey) {
      PositionGivesMembership(currentValue, cacheKey);
    }
    if cacheKey in Split(currentValue, SEPARATOR) {
      MembershipGivesPosition(currentValue, cacheKey);
    }
  }

  lemma PositionGivesMembership(text: string, key: string)
    requires ',' !in key && ContainsCacheKey(text, key)
    ensures key in Split(text, SEPARATOR)
  {
    hide Split, OccursAt;
    SplitWithoutSeparator(key, ',');
    if text == key {
    } else if HasPrefix(text, key + SEPARATOR) {
      var rest := text[|key| + 1..];
      SplitAtSeparator(key, ',', rest);
      assert text == key + [','] + rest;
    } else if HasSuffix(text, SEPARATOR + key) {
      var before := text[..|text| - |key| - 1];
      SplitAtSeparator(before, ',', key);
      assert text == before + [','] + key;
    } else {
      var i :| 0 <= i <= |text| && OccursAt(text, SEPARATOR + key + SEPARATOR, i);
      MiddleGivesMembership(text, key, i);
    }
  }

  lemma MiddleGivesMembership(text: string, key: string, i: nat)
    requires ',' !in key && OccursAt(text, SEPARATOR + key + SEPARATOR, i)
    ensures key in Split(text, SEPARATOR)
  {
    var before, after := text[..i], text[i + |key| + 2..];
    assert text == before + text[i..i + |key| + 2] + after;
    assert text == before + [','] + (key + [','] + after);
    SplitAtSeparator(before, ',', key + [','] + after);
    SplitAtSeparator(key, ',', after);
    SplitWithoutSeparator(key, ',');
  }

  lemma {:induction false} MembershipGivesPosition(text: string, key: string)
    requires ',' !in key && text != "" && key in Split(text, SEPARATOR)
    ensures ContainsCacheKey(text, key)
  {
    if ',' !in text {
      SplitWithoutSeparator(text, ',');
    } else {
      var i := FirstIndex(text, ',');
      var head, rest := text[..i], text[i + 1..];
      assert text == head + [','] + rest;
      SplitWithoutSeparator(head, ',');
      SplitAtSeparator(head, ',', rest);
      if key == head {
        assert HasPrefix(text, key + SEPARATOR);
      } else if rest == "" {
        assert HasSuffix(text, SEPARATOR + key);
      } else {
        MembershipGivesPosition(rest, key);
        ShiftPosition(head, rest, key);
      }
    }
  }

  /** A position found in `rest` is a position in `head,rest`. */
  lemma ShiftPosition(head: string, rest: string, key: string)
    requires ',' !in key && ContainsCacheKey(rest, key)
    ensures ContainsCacheKey(head + [','] + rest, key)
  {
    var text := head + [','] + rest;
    if rest == key {
      assert HasSuffix(text, SEPARATOR + key);
    } else if HasPrefix(rest, key + SEPARATOR) {
      assert text[|head|..|head| + |key| + 2] == SEPARATOR + key + SEPARATOR;
      assert OccursAt(text, SEPARATOR + key + SEPARATOR, |head|);
    } else if HasSuffix(rest, SEPARATOR + key) {
      assert text[|text| - |key| - 1..] == rest[|rest| - |key| - 1..];
    } else {
      var i :| 0 <= i <= |rest| && OccursAt(rest, SEPARATOR + key + SEPARATOR, i);
      OccursShift(head + [','], rest, "", SEPARATOR + key + SEPARATOR, i);
      assert head + [','] + rest + "" == text;
    }
  }

  function FirstIndex(s: string, c: char): (i: nat)
    requires c in s
    ensures i < |s| && s[i] == c && c !in s[..i]
  {
    if s[0] == c then 0 else 1 + FirstIndex(s[1..], c)
  }

  /** Over any sequence of `storeTag` calls the text is the join of the distinct keys,
      in the order of their first insertion, and splitting it gives those keys back. */
  lemma {:induction false} RecordIsOrderedSet(keys: seq<string>)
    requires forall k :: k in keys ==> k != "" && ',' !in k
    ensures Record(keys) == Join(Distinct(keys), SEPARATOR)
    ensures Record(keys) == "" <==> keys == []
    ensures keys != [] ==> Split(Record(keys), SEPARATOR) == Distinct(keys)
  {
    if keys != [] {
      var front, last := keys[..|keys| - 1], keys[|keys| - 1];
      assert forall k :: k in front ==> k in keys;
      RecordIsOrderedSet(front);
      DistinctProperties(front);
      DistinctProperties(keys);
      if front != [] {
        ContainsIsMembership(Record(front), last);
        if last !in Distinct(front) {
          assert Distinct(front) != [];
          JoinAppend(Distinct(front), last, SEPARATOR);
        }
      }
      SplitOfJoin(Distinct(keys), ',');
    }
  }

  // ---- Purge: split, drop duplicates, unescape

  function NonEmpty(items: seq<string>): seq<string> {
    if items == [] then []
    else
      var front, last := NonEmpty(items[..|items| - 1]), items[|items| - 1];
      if last == "" then front else front + [last]
  }

  /** `uniqueTag` unescapes an item only when it contains a percent sign. */
  function Decoded(item: string): string {
    if '%' in item then UnescapeOrEmpty(item) else item
  }

  function DecodedAll(items: seq<string>): seq<string> {
    seq(|items|, i requires 0 <= i < |items| => Decoded(items[i]))
  }

  /** `uniqueTag`: the loop keeps the raw items it has seen and appends the decoded ones. */
  method UniqueTag(values: seq<string>) returns (list: seq<string>)
    ensures list == DecodedAll(Distinct(NonEmpty(values)))
  {
    var seen: set<string> := {};
    list := [];
    for n := 0 to |values|
      invariant forall x :: x in seen <==> x in Distinct(NonEmpty(values[..n]))
      invariant list == DecodedAll(Distinct(NonEmpty(values[..n])))
    {
      var item := values[n];
      assert values[..n + 1][..n] == values[..n];
      if item != "" {
        DistinctProperties(NonEmpty(values[..n]));
        assert (NonEmpty(values[..n]) + [item])[..|NonEmpty(values[..n])|] == NonEmpty(values[..n]);
        if item !in seen {
          seen := seen + {item};
          list := list + [Decoded(item)];
        }
      }
    }
    assert values[..|values|] == values;
  }

  ghost predicate AllBytes(keys: seq<string>) {
    forall i :: 0 <= i < |keys| ==> IsBytes(keys[i])
  }

  function EscapedAll(keys: seq<string>): (r: seq<string>)
    requires AllBytes(keys)
    ensures |r| == |keys|
  {
    seq(|keys|, i requires 0 <= i < |keys| => QueryEscape(keys[i]))
  }

  /** A key comes back from escaping and the conditional unescape. */
  predicate Survives(key: string)
    requires IsBytes(key)
  {
    ' ' !in key || '%' in QueryEscape(key)
  }

  lemma SurvivesExactly(key: string)
    requires IsBytes(key)
    ensures Decoded(QueryEscape(key)) == key <==> Survives(key)
    ensures !Survives(key) ==> ' ' !in Decoded(QueryEscape(key))
  {
    EscapeRoundTrip(key);
    EscapePercent(key);
    EscapeAlphabet(key);
  }

  /** What `Purge` returns for one tag whose record was built by storing `keys`. */
  function PurgedKeys(keys: seq<string>): seq<string>
    requires AllBytes(keys)
  {
    DecodedAll(Distinct(NonEmpty(Split(Record(EscapedAll(keys)), SEPARATOR))))
  }

  lemma {:induction false} DistinctOfDistinct<T>(s: seq<T>)
    requires NoDuplicates(s)
    ensures Distinct(s) == s
  {
    if s != [] {
      var front := s[..|s| - 1];
      DistinctOfDistinct(front);
      assert s == front + [s[|s| - 1]];
    }
  }

  lemma {:induction false} NonEmptyIdentity(s: seq<string>)
    requires "" !in s
    ensures NonEmpty(s) == s
  {
    if s != [] {
      NonEmptyIdentity(s[..|s| - 1]);
    }
  }

  lemma EscapedAppend(a: seq<string>, b: seq<string>)
    requires AllBytes(a) && AllBytes(b)
    ensures AllBytes(a + b) && EscapedAll(a + b) == EscapedAll(a) + EscapedAll(b)
  {
  }

  lemma EscapedMember(keys: seq<string>, key: string)
    requires AllBytes(keys) && IsBytes(key)
    ensures QueryEscape(key) in EscapedAll(keys) <==> key in keys
  {
    hide QueryEscape, IsBytes;
    if QueryEscape(key) in EscapedAll(keys) {
      var i :| 0 <= i < |keys| && EscapedAll(keys)[i] == QueryEscape(key);
      EscapeInjective(keys[i], key);
    }
    if key in keys {
      var i :| 0 <= i < |keys| && keys[i] == key;
      assert EscapedAll(keys)[i] == QueryEscape(key);
    }
  }

  lemma {:induction false} DistinctOfEscaped(keys: seq<string>)
    requires AllBytes(keys)
    ensures AllBytes(Distinct(keys))
    ensures Distinct(EscapedAll(keys)) == EscapedAll(Distinct(keys))
  {
    hide QueryEscape, IsBytes;
    if keys != [] {
      hide Distinct;
      var front, last := keys[..|keys| - 1], keys[|keys| - 1];
      assert keys == front + [last];
      DistinctOfEscaped(front);
      DistinctLast(front, last);
      EscapedAppend(front, [last]);
      DistinctLast(EscapedAll(front), QueryEscape(last));
      EscapedMember(Distinct(front), last);
      EscapedAppend(Distinct(front), [last]);
    }
  }

  lemma EscapedKeysAreCleanItems(keys: seq<string>)
    requires AllBytes(keys) && "" !in keys
    ensures forall k :: k in EscapedAll(keys) ==> k != "" && ',' !in k
  {
    hide QueryEscape, IsBytes;
    forall i | 0 <= i < |keys|
      ensures QueryEscape(keys[i]) != "" && ',' !in QueryEscape(keys[i])
    {
      EscapeAlphabet(keys[i]);
    }
  }

  /** Escape, join, split, dedupe and conditional unescape leave the distinct keys, decoded one by one. */
  lemma PurgedKeysAre(keys: seq<string>)
    requires AllBytes(keys) && "" !in keys
    ensures AllBytes(Distinct(keys))
    ensures PurgedKeys(keys) == DecodedAll(EscapedAll(Distinct(keys)))
  {
    var items := EscapedAll(keys);
    EscapedKeysAreCleanItems(keys);
    RecordIsOrderedSet(items);
    DistinctOfEscaped(keys);
    if keys == [] {
      assert Split("", SEPARATOR) == [""];
      assert NonEmpty([""]) == [];
    } else {
      DistinctProperties(items);
      NonEmptyIdentity(Distinct(items));
      DistinctOfDistinct(Distinct(items));
    }
  }

  /** Store then purge: every original key comes back exactly once, in insertion order,
      if and only if each of them has no space or an escaped form with a percent sign. */
  lemma StoreThenPurge(keys: seq<string>)
    requires AllBytes(keys) && "" !in keys
    ensures PurgedKeys(keys) == Distinct(keys) <==> forall k :: k in keys ==> IsBytes(k) && Survives(k)
    ensures NoDuplicates(Distinct(keys)) && forall k :: k in Distinct(keys) <==> k in keys
  {
    PurgedKeysAre(keys);
    DistinctProperties(keys);
    var d := Distinct(keys);
    if forall k :: k in keys ==> IsBytes(k) && Survives(k) {
      forall i | 0 <= i < |d|
        ensures PurgedKeys(keys)[i] == d[i]
      {
        SurvivesExactly(d[i]);
      }
      assert PurgedKeys(keys) == d;
    } else {
      var k :| k in keys && !(IsBytes(k) && Survives(k));
      var i :| 0 <= i < |d| && d[i] == k;
      SurvivesExactly(d[i]);
      assert PurgedKeys(keys)[i] != d[i];
    }
  }

  /** A key that does not survive is lost to its purge: no returned key equals it. */
  lemma LostKeyIsNotReturned(keys: seq<string>, key: string)
    requires AllBytes(keys) && "" !in keys && key in keys && IsBytes(key) && !Survives(key)
    ensures key !in PurgedKeys(keys)
  {
    PurgedKeysAre(keys);
    var d := Distinct(keys);
    forall i | 0 <= i < |d|
      ensures PurgedKeys(keys)[i] != key
    {
      SurvivesExactly(d[i]);
    }
  }

  /** One key that is lost: `a b` escapes to `a+b`, which has no percent sign. */
  lemma SpaceOnlyKeyIsLost()
    ensures IsBytes("a b") && AllBytes(["a b"]) && "a b" !in PurgedKeys(["a b"])
  {
    EscapePercent("a b");
    assert forall c :: c in "a b" ==> c == 'a' || c == ' ' || c == 'b';
    LostKeyIsNotReturned(["a b"], "a b");
  }
}
