/** The variant suffix of a cache key: its printer `GetVariedCacheKey` and its parser `varyVoter`. */
module VaryKey {
  import opened Strings
  import opened UrlEscape
  import opened HttpHeader

  const VARY_SEPARATOR := "{-VARY-}"
  const ITEM_SEPARATOR := ";"
  const ENCODED_SEMICOLON := "%3B"
  const ENCODED_COLON := "%3A"

  // ---- The printer

  predicate NeedsEscape(value: string) {
    ';' in value || ':' in value
  }

  ghost predicate ByteValues(rq: Header, names: seq<string>) {
    forall i :: 0 <= i < |names| ==> IsBytes(TrimSpace(Get(rq, names[i])))
  }

  function PrintValue(value: string): string
    requires IsBytes(value)
  {
    if NeedsEscape(value) then QueryEscape(value) else value
  }

  function PrintItem(rq: Header, name: string): string
    requires IsBytes(TrimSpace(Get(rq, name)))
  {
    name + ":" + PrintValue(TrimSpace(Get(rq, name)))
  }

  function PrintItems(rq: Header, names: seq<string>): (items: seq<string>)
    requires ByteValues(rq, names)
    ensures |items| == |names|
  {
    seq(|names|, i requires 0 <= i < |names| => PrintItem(rq, names[i]))
  }

  function PrintedSuffix(rq: Header, names: seq<string>): string
    requires ByteValues(rq, names)
  {
    if names == [] then "" else VARY_SEPARATOR + Join(PrintItems(rq, names), ITEM_SEPARATOR)
  }

  /** `GetVariedCacheKey` overwrites the caller's list of names with the printed items. */
  method GetVariedCacheKey(rq: Header, headers: array<string>) returns (key: string)
    requires ByteValues(rq, headers[..])
    modifies headers
    ensures headers[..] == PrintItems(rq, old(headers[..]))
    ensures key == PrintedSuffix(rq, old(headers[..]))
  {
    if headers.Length == 0 {
      return "";
    }
    ghost var names := headers[..];
    for i := 0 to headers.Length
      invariant headers[..i] == PrintItems(rq, names)[..i]
      invariant headers[i..] == names[i..]
    {
      var v := headers[i];
      assert v == names[i];
      var h := TrimSpace(Get(rq, v));
      if ';' in h || ':' in h {
        h := QueryEscape(h);
      }
      headers[i] := v + ":" + h;
    }
    assert headers[..] == headers[..headers.Length] == PrintItems(rq, names);
    key := VARY_SEPARATOR + Join(headers[..], ITEM_SEPARATOR);
  }

  // ---- The parser

  /** An item without a colon makes `item[:index]` slice at -1, which panics. */
  datatype Vote = Accepts | Rejects | Panics

  function ParseValue(raw: string): string {
    if Contains(raw, ENCODED_SEMICOLON) || Contains(raw, ENCODED_COLON) then UnescapeOrEmpty(raw) else raw
  }

  function VoteItem(req: Header, item: string): Vote {
    var index := LastIndex(item, ":");
    if index < 0 then Panics
    else if Get(req, item[..index]) != ParseValue(item[index + 1..]) then Rejects
    else Accepts
  }

  /** The vote of a list of items is the first one that is not an acceptance. */
  function VoteItems(req: Header, items: seq<string>): Vote {
    if items == [] then Accepts
    else if VoteItem(req, items[0]) != Accepts then VoteItem(req, items[0])
    else VoteItems(req, items[1..])
  }

  function VoteList(req: Header, list: string): Vote {
    if list == "" then Rejects else VoteItems(req, Split(list, ITEM_SEPARATOR))
  }

  function VoteSpec(baseKey: string, req: Header, currentKey: string): Vote {
    if currentKey == baseKey then Accepts
    else if Contains(currentKey, VARY_SEPARATOR) && HasPrefix(currentKey, baseKey + VARY_SEPARATOR) then
      VoteList(req, currentKey[LastIndex(currentKey, VARY_SEPARATOR) + |VARY_SEPARATOR|..])
    else Rejects
  }

  /** `varyVoter`: the loop over the split items with its early returns. */
  method VaryVoter(baseKey: string, req: Header, currentKey: string) returns (vote: Vote)
    ensures vote == VoteSpec(baseKey, req, currentKey)
  {
    if currentKey == baseKey {
      return Accepts;
    }
    if Contains(currentKey, VARY_SEPARATOR) && HasPrefix(currentKey, baseKey + VARY_SEPARATOR) {
      var list := currentKey[LastIndex(currentKey, VARY_SEPARATOR) + |VARY_SEPARATOR|..];
      if |list| == 0 {
        return Rejects;
      }
      vote := VoteOnItems(req, Split(list, ITEM_SEPARATOR));
      return;
    }
    return Rejects;
  }

  /** The item loop of `varyVoter`. */
  method VoteOnItems(req: Header, items: seq<string>) returns (vote: Vote)
    ensures vote == VoteItems(req, items)
  {
    for n := 0 to |items|
      invariant VoteItems(req, items) == VoteItems(req, items[n..])
    {
      var item := items[n];
      assert items[n..][0] == item && items[n..][1..] == items[n + 1..];
      var index := LastIndex(item, ":");
      var hVal := item[index + 1..];
      if Contains(hVal, ENCODED_SEMICOLON) || Contains(hVal, ENCODED_COLON) {
        hVal := UnescapeOrEmpty(hVal);
      }
      if index < 0 {
        return Panics;
      }
      if Get(req, item[..index]) != hVal {
        return Rejects;
      }
    }
    return Accepts;
  }

  // ---- Printer and parser agree

  /** A header name from a Vary header: a token, so none of the key's own punctuation. */
  predicate IsName(name: string) {
    ':' !in name && ';' !in name && '{' !in name
  }

  ghost predicate Names(names: seq<string>) {
    forall i :: 0 <= i < |names| ==> IsName(names[i])
  }

  predicate HasEncodedSeparator(value: string) {
    Contains(value, ENCODED_SEMICOLON) || Contains(value, ENCODED_COLON)
  }

  /** A value the parser reads back: the printer escapes it, or it holds nothing the parser would decode or cut at. */
  predicate Readable(value: string) {
    NeedsEscape(value) || (!HasEncodedSeparator(value) && !Contains(value, VARY_SEPARATOR))
  }

  ghost predicate AllReadable(rq: Header, names: seq<string>) {
    forall i :: 0 <= i < |names| ==> Readable(TrimSpace(Get(rq, names[i])))
  }

  /** `receiver` sends, for every listed header, the trimmed value of `printer`. */
  ghost predicate SendsTrimmedValues(printer: Header, receiver: Header, names: seq<string>) {
    forall i :: 0 <= i < |names| ==> Get(receiver, names[i]) == TrimSpace(Get(printer, names[i]))
  }

  lemma {:induction false} EscapedSeparatorShows(value: string)
    requires IsBytes(value) && NeedsEscape(value)
    ensures HasEncodedSeparator(QueryEscape(value))
  {
    var head, tail := EscapeByte(value[0]), QueryEscape(value[1..]);
    assert head + tail + "" == head + tail == QueryEscape(value);
    if value[0] == ';' || value[0] == ':' {
      var code := if value[0] == ';' then ENCODED_SEMICOLON else ENCODED_COLON;
      assert head == code;
      assert OccursAt(head + tail, code, 0);
    } else {
      EscapedSeparatorShows(value[1..]);
      var code := if Contains(tail, ENCODED_SEMICOLON) then ENCODED_SEMICOLON else ENCODED_COLON;
      var i :| 0 <= i <= |tail| && OccursAt(tail, code, i);
      OccursShift(head, tail, "", code, i);
    }
  }

  lemma {:induction false} UnescapeShrinks(s: string)
    ensures QueryUnescape(s).Some? ==> |QueryUnescape(s).value| <= |s|
    ensures QueryUnescape(s).Some? && '%' in s ==> |QueryUnescape(s).value| < |s|
  {
    if s != "" {
      if s[0] == '%' {
        if |s| >= 3 {
          UnescapeShrinks(s[3..]);
        }
      } else {
        UnescapeShrinks(s[1..]);
      }
    }
  }

  /** The parser reads a printed value back exactly when it was escaped or shows no encoded separator. */
  lemma ParsePrintedValue(value: string)
    requires IsBytes(value)
    ensures ParseValue(PrintValue(value)) == value <==> NeedsEscape(value) || !HasEncodedSeparator(value)
  {
    if NeedsEscape(value) {
      EscapedSeparatorShows(value);
      EscapeRoundTrip(value);
    } else if HasEncodedSeparator(value) {
      EncodedSeparatorHasPercent(value);
      UnescapeShrinks(value);
    }
  }

  lemma EncodedSeparatorHasPercent(value: string)
    requires HasEncodedSeparator(value)
    ensures '%' in value
  {
    var code := if Contains(value, ENCODED_SEMICOLON) then ENCODED_SEMICOLON else ENCODED_COLON;
    var i :| 0 <= i <= |value| && OccursAt(value, code, i);
    OccursChars(value, code, i);
    assert value[i] == '%';
  }

  lemma PrintedValueAlphabet(value: string)
    requires IsBytes(value)
    ensures ';' !in PrintValue(value) && ':' !in PrintValue(value)
    ensures NeedsEscape(value) ==> '{' !in PrintValue(value)
  {
    if NeedsEscape(value) {
      EscapeAlphabet(value);
    }
  }

  /** The vote on one printed item compares the header with the value as the parser reads it. */
  lemma VoteOnPrintedItem(p: Header, r: Header, name: string)
    requires IsName(name) && IsBytes(TrimSpace(Get(p, name)))
    ensures VoteItem(r, PrintItem(p, name)) ==
            if Get(r, name) == ParseValue(PrintValue(TrimSpace(Get(p, name)))) then Accepts else Rejects
  {
    var value := PrintValue(TrimSpace(Get(p, name)));
    PrintedValueAlphabet(TrimSpace(Get(p, name)));
    ColonIndex(name, value);
  }

  lemma ColonIndex(name: string, value: string)
    requires ':' !in name && ':' !in value
    ensures var item := name + ":" + value;
            LastIndex(item, ":") == |name| && item[..|name|] == name && item[|name| + 1..] == value
  {
    var item := name + ":" + value;
    assert item[|name|..|name| + 1] == ":";
    assert OccursAt(item, ":", |name|);
    var r := LastIndex(item, ":");
    OccursChars(item, ":", r);
    assert item[r] == ':';
    assert forall k :: |name| < k < |item| ==> item[k] == value[k - |name| - 1];
  }

  lemma NoColonIndex(item: string)
    requires ':' !in item
    ensures LastIndex(item, ":") == -1
  {
    OccursChars(item, ":", LastIndex(item, ":"));
  }

  lemma ItemsHaveNoSeparator(p: Header, names: seq<string>)
    requires Names(names) && ByteValues(p, names)
    ensures forall item :: item in PrintItems(p, names) ==> ';' !in item
  {
    forall i | 0 <= i < |names|
      ensures ';' !in PrintItems(p, names)[i]
    {
      PrintedValueAlphabet(TrimSpace(Get(p, names[i])));
    }
  }

  lemma {:induction false} VoteOnPrintedItems(p: Header, r: Header, names: seq<string>)
    requires Names(names) && ByteValues(p, names)
    ensures VoteItems(r, PrintItems(p, names)) ==
            if forall i :: 0 <= i < |names| ==>
                Get(r, names[i]) == ParseValue(PrintValue(TrimSpace(Get(p, names[i])))) then Accepts else Rejects
  {
    hide VoteItem, PrintItem, ParseValue, PrintValue, Get, TrimSpace;
    if names != [] {
      VoteOnPrintedItem(p, r, names[0]);
      VoteOnPrintedItems(p, r, names[1..]);
      assert PrintItems(p, names)[1..] == PrintItems(p, names[1..]);
      assert forall i :: 1 <= i < |names| ==> names[i] == names[1..][i - 1];
    }
  }

  /** A separator inside the printed list can only sit inside an unescaped value,
      so the item the parser would start with has no colon. */
  lemma {:induction false} SeparatorInsideList(p: Header, names: seq<string>, j: nat)
    requires names != [] && Names(names) && ByteValues(p, names)
    requires OccursAt(Join(PrintItems(p, names), ITEM_SEPARATOR), VARY_SEPARATOR, j)
    ensures !AllReadable(p, names)
    ensures ':' !in Split(Join(PrintItems(p, names), ITEM_SEPARATOR)[j + 8..], ITEM_SEPARATOR)[0]
  {
    hide PrintItem, Readable, Get, TrimSpace, OccursAt, IsBytes;
    var items := PrintItems(p, names);
    var item, rest := items[0], Join(items[1..], ITEM_SEPARATOR);
    var after := if |names| == 1 then "" else ";" + rest;
    assert Join(items, ITEM_SEPARATOR) == item + after;
    assert items[1..] == PrintItems(p, names[1..]);
    if j > |item| {
      SeparatorInTail(item, after, j);
      SeparatorInsideList(p, names[1..], j - |item| - 1);
      var i :| 0 <= i < |names[1..]| && !Readable(TrimSpace(Get(p, names[1..][i])));
      assert names[1..][i] == names[i + 1];
    } else {
      SeparatorInHead(item, after, j);
      SeparatorInsideItem(p, names[0], j);
      SplitWithoutSeparator(item[j + 8..], ';');
      if |names| > 1 {
        SplitAtSeparator(item[j + 8..], ';', rest);
        assert item[j + 8..] + after == item[j + 8..] + [';'] + rest;
      } else {
        assert item[j + 8..] + after == item[j + 8..];
      }
    }
  }

  lemma SeparatorInTail(item: string, after: string, j: nat)
    requires after == "" || after[0] == ';'
    requires OccursAt(item + after, VARY_SEPARATOR, j) && j > |item|
    ensures after != "" && OccursAt(after[1..], VARY_SEPARATOR, j - |item| - 1)
    ensures (item + after)[j + 8..] == after[1..][j - |item| - 1 + 8..]
  {
    assert item + after == (item + ";") + after[1..] + "";
    OccursInside(item + ";", after[1..], "", VARY_SEPARATOR, j);
  }

  lemma SeparatorInHead(item: string, after: string, j: nat)
    requires after == "" || after[0] == ';'
    requires OccursAt(item + after, VARY_SEPARATOR, j) && j <= |item|
    ensures j + 8 <= |item| && OccursAt(item, VARY_SEPARATOR, j)
    ensures (item + after)[j + 8..] == item[j + 8..] + after
  {
    OccursChars(item + after, VARY_SEPARATOR, j);
    assert after != "" ==> (item + after)[|item|] == ';';
    assert item + after == "" + item + after;
    OccursInside("", item, after, VARY_SEPARATOR, j);
  }

  lemma SeparatorInsideItem(p: Header, name: string, j: nat)
    requires IsName(name) && IsBytes(TrimSpace(Get(p, name)))
    requires OccursAt(PrintItem(p, name), VARY_SEPARATOR, j)
    ensures !Readable(TrimSpace(Get(p, name)))
    ensures ':' !in PrintItem(p, name)[j + 8..] && ';' !in PrintItem(p, name)[j + 8..]
  {
    var value := TrimSpace(Get(p, name));
    var item, printed := PrintItem(p, name), PrintValue(value);
    PrintedValueAlphabet(value);
    OccursChars(item, VARY_SEPARATOR, j);
    assert item[j] == '{';
    assert forall k :: 0 <= k < |name| ==> item[k] == name[k];
    assert item == (name + ":") + printed + "";
    OccursInside(name + ":", printed, "", VARY_SEPARATOR, j);
    assert printed[j - |name| - 1] == '{';
    assert item[j + 8..] == printed[j - |name| - 1 + 8..];
  }

  lemma {:induction false} UnreadableValueShows(p: Header, names: seq<string>, i: nat)
    requires ByteValues(p, names) && i < |names|
    requires !NeedsEscape(TrimSpace(Get(p, names[i]))) && Contains(TrimSpace(Get(p, names[i])), VARY_SEPARATOR)
    ensures Contains(Join(PrintItems(p, names), ITEM_SEPARATOR), VARY_SEPARATOR)
  {
    hide Get, TrimSpace, OccursAt, IsBytes, QueryEscape;
    var items := PrintItems(p, names);
    var list, rest := Join(items, ITEM_SEPARATOR), Join(items[1..], ITEM_SEPARATOR);
    assert items[1..] == PrintItems(p, names[1..]);
    if i == 0 {
      var value := TrimSpace(Get(p, names[0]));
      var k :| 0 <= k <= |value| && OccursAt(value, VARY_SEPARATOR, k);
      var after := if |names| == 1 then "" else ";" + rest;
      OccursShift(names[0] + ":", value, after, VARY_SEPARATOR, k);
      assert list == (names[0] + ":") + value + after;
    } else {
      UnreadableValueShows(p, names[1..], i - 1);
      var k :| 0 <= k <= |rest| && OccursAt(rest, VARY_SEPARATOR, k);
      OccursShift(items[0] + ";", rest, "", VARY_SEPARATOR, k);
      assert list == (items[0] + ";") + rest + "";
    }
  }

  /** `LastIndex` finds the printed separator itself unless one is hidden inside the list. */
  lemma LastSeparator(baseKey: string, list: string)
    ensures var current := baseKey + VARY_SEPARATOR + list;
            var at := LastIndex(current, VARY_SEPARATOR);
            && at >= |baseKey|
            && (at == |baseKey| <==> !Contains(list, VARY_SEPARATOR))
            && (at > |baseKey| ==> OccursAt(list, VARY_SEPARATOR, at - |baseKey| - 8))
  {
    var current := baseKey + VARY_SEPARATOR + list;
    var at := LastIndex(current, VARY_SEPARATOR);
    assert OccursAt(VARY_SEPARATOR, VARY_SEPARATOR, 0);
    OccursShift(baseKey, VARY_SEPARATOR, list, VARY_SEPARATOR, 0);
    assert at >= |baseKey|;
    if at > |baseKey| {
      OccursChars(current, VARY_SEPARATOR, at);
      assert current[at] == '{';
      assert forall j :: |baseKey| <= j < |baseKey| + 8 ==> current[j] == VARY_SEPARATOR[j - |baseKey|];
      assert at >= |baseKey| + 8;
      assert current == (baseKey + VARY_SEPARATOR) + list + "";
      OccursInside(baseKey + VARY_SEPARATOR, list, "", VARY_SEPARATOR, at);
    }
    if Contains(list, VARY_SEPARATOR) {
      var k :| 0 <= k <= |list| && OccursAt(list, VARY_SEPARATOR, k);
      OccursShift(baseKey + VARY_SEPARATOR, list, "", VARY_SEPARATOR, k);
      assert current == (baseKey + VARY_SEPARATOR) + list + "";
    }
  }

  /** The vote on a printed key is the vote on the printed items, unless a separator is hidden in the list. */
  lemma VoteOnPrintedKey(baseKey: string, p: Header, r: Header, names: seq<string>)
    requires names != [] && Names(names) && ByteValues(p, names)
    ensures var list := Join(PrintItems(p, names), ITEM_SEPARATOR);
            if Contains(list, VARY_SEPARATOR)
            then !AllReadable(p, names) && VoteSpec(baseKey, r, baseKey + PrintedSuffix(p, names)) != Accepts
            else VoteSpec(baseKey, r, baseKey + PrintedSuffix(p, names)) == VoteItems(r, PrintItems(p, names))
  {
    hide Get, TrimSpace, IsBytes, PrintItem, LastIndex, Readable, VoteSpec;
    var items := PrintItems(p, names);
    var list := Join(items, ITEM_SEPARATOR);
    JoinNonEmpty(p, names);
    VoteOnList(baseKey, r, list);
    assert baseKey + PrintedSuffix(p, names) == baseKey + VARY_SEPARATOR + list;
    if Contains(list, VARY_SEPARATOR) {
      var j :| OccursAt(list, VARY_SEPARATOR, j) &&
               VoteSpec(baseKey, r, baseKey + VARY_SEPARATOR + list) == VoteList(r, list[j + 8..]);
      SeparatorInsideList(p, names, j);
      NoColonIndex(Split(list[j + 8..], ITEM_SEPARATOR)[0]);
    } else {
      ItemsHaveNoSeparator(p, names);
      SplitOfJoin(items, ';');
    }
  }

  lemma CutAfter(before: string, list: string, at: nat)
    requires |before| <= at <= |before| + |list|
    ensures (before + list)[at..] == list[at - |before|..]
  {
  }

  /** The list `varyVoter` cuts out of a printed key. */
  lemma VoteOnList(baseKey: string, r: Header, list: string)
    requires list != ""
    ensures var current := baseKey + VARY_SEPARATOR + list;
            if Contains(list, VARY_SEPARATOR)
            then exists j ::
                   OccursAt(list, VARY_SEPARATOR, j) && VoteSpec(baseKey, r, current) == VoteList(r, list[j + 8..])
            else VoteSpec(baseKey, r, current) == VoteList(r, list)
  {
    hide VoteList, Contains, LastIndex;
    var current := baseKey + VARY_SEPARATOR + list;
    LastSeparator(baseKey, list);
    var at := LastIndex(current, VARY_SEPARATOR);
    assert |current| > |baseKey|;
    assert HasPrefix(current, baseKey + VARY_SEPARATOR);
    assert VoteSpec(baseKey, r, current) == VoteList(r, current[at + 8..]);
    CutAfter(baseKey + VARY_SEPARATOR, list, at + 8);
  }

  lemma JoinNonEmpty(p: Header, names: seq<string>)
    requires names != [] && ByteValues(p, names)
    ensures Join(PrintItems(p, names), ITEM_SEPARATOR) != ""
  {
    assert PrintItems(p, names)[0] != "";
    assert PrintItems(p, names)[0] <= Join(PrintItems(p, names), ITEM_SEPARATOR);
  }

  /** With readable values, the voter accepts a printed key exactly when the receiver agrees with the
      printing request on every listed header; otherwise it rejects, and it never panics. */
  lemma VoterAcceptsExactly(baseKey: string, p: Header, r: Header, names: seq<string>)
    requires Names(names) && ByteValues(p, names) && AllReadable(p, names)
    ensures VoteSpec(baseKey, r, baseKey + PrintedSuffix(p, names)) ==
            if SendsTrimmedValues(p, r, names) then Accepts else Rejects
  {
    if names == [] {
      assert baseKey + PrintedSuffix(p, names) == baseKey;
    } else {
      VoteOnPrintedKey(baseKey, p, r, names);
      VoteOnPrintedItems(p, r, names);
      forall i | 0 <= i < |names|
        ensures ParseValue(PrintValue(TrimSpace(Get(p, names[i])))) == TrimSpace(Get(p, names[i]))
      {
        ParsePrintedValue(TrimSpace(Get(p, names[i])));
      }
    }
  }

  /** The printing request itself is accepted if and only if each of its listed values is trimmed and readable. */
  lemma OwnKeyAccepted(baseKey: string, p: Header, names: seq<string>)
    requires Names(names) && ByteValues(p, names)
    ensures VoteSpec(baseKey, p, baseKey + PrintedSuffix(p, names)) == Accepts <==>
            AllReadable(p, names) && SendsTrimmedValues(p, p, names)
  {
    if AllReadable(p, names) {
      VoterAcceptsExactly(baseKey, p, p, names);
    } else {
      VoteOnPrintedKey(baseKey, p, p, names);
      VoteOnPrintedItems(p, p, names);
      var i :| 0 <= i < |names| && !Readable(TrimSpace(Get(p, names[i])));
      if HasEncodedSeparator(TrimSpace(Get(p, names[i]))) {
        DecodedValueDiffers(Get(p, names[i]));
      } else {
        UnreadableValueShows(p, names, i);
      }
    }
  }

  lemma {:induction false} TrimShrinks(s: string)
    ensures |TrimLeft(s)| <= |s| && |TrimRight(s)| <= |s|
  {
    if s != "" {
      TrimShrinks(s[1..]);
      TrimShrinks(s[..|s| - 1]);
    }
  }

  /** A value with an encoded separator is longer than what the parser makes of it. */
  lemma DecodedValueDiffers(raw: string)
    requires IsBytes(TrimSpace(raw)) && !NeedsEscape(TrimSpace(raw)) && HasEncodedSeparator(TrimSpace(raw))
    ensures ParseValue(PrintValue(TrimSpace(raw))) != raw
  {
    var value := TrimSpace(raw);
    TrimShrinks(raw);
    TrimShrinks(TrimLeft(raw));
    ParsePrintedValue(value);
    EncodedSeparatorHasPercent(value);
    UnescapeShrinks(value);
  }

  /** A key that is neither the base key nor extends it by a separator is rejected, and so is a bare separator. */
  lemma OtherKeyIsRejected(baseKey: string, r: Header, currentKey: string)
    ensures currentKey != baseKey && !(baseKey + "{-VARY-}" <= currentKey) ==>
            VoteSpec(baseKey, r, currentKey) == Rejects
    ensures VoteSpec(baseKey, r, baseKey) == Accepts
    ensures VoteSpec(baseKey, r, baseKey + "{-VARY-}") == Rejects
  {
    var bare := baseKey + "{-VARY-}";
    assert bare == baseKey + VARY_SEPARATOR + "";
    hide LastIndex, VoteItems, Contains;
    NothingContains(VARY_SEPARATOR);
    LastSeparator(baseKey, "");
    assert bare[LastIndex(bare, VARY_SEPARATOR) + 8..] == "";
    assert |bare| != |baseKey|;
  }

  lemma NothingContains(word: string)
    requires word != ""
    ensures !Contains("", word)
  {
  }

  /** A key printed for another base key is rejected, when neither of them holds a brace. */
  lemma OtherBaseIsRejected(baseKey: string, other: string, p: Header, r: Header, names: seq<string>)
    requires other != baseKey && '{' !in baseKey && '{' !in other && ByteValues(p, names)
    ensures VoteSpec(baseKey, r, other + PrintedSuffix(p, names)) == Rejects
  {
    hide PrintItems, Join, VoteSpec;
    var suffix := PrintedSuffix(p, names);
    assert suffix == "" || suffix[0] == '{';
    OtherPrefix(baseKey, other, suffix);
    OtherKeyIsRejected(baseKey, r, other + suffix);
  }

  lemma OtherPrefix(baseKey: string, other: string, suffix: string)
    requires other != baseKey && '{' !in baseKey && '{' !in other && (suffix == "" || suffix[0] == '{')
    ensures other + suffix != baseKey && !(baseKey + "{-VARY-}" <= other + suffix)
  {
    var current, prefix := other + suffix, baseKey + "{-VARY-}";
    assert prefix[|baseKey|] == '{';
    if suffix == "" {
      assert current == other;
    } else {
      assert current[|other|] == '{';
    }
    if |other| < |baseKey| {
      assert prefix[|other|] == baseKey[|other|];
    } else if |other| > |baseKey| {
      assert current[|baseKey|] == other[|baseKey|];
    } else {
      var i :| 0 <= i < |other| && other[i] != baseKey[i];
      assert current[i] == other[i] && prefix[i] == baseKey[i];
    }
  }

  /** A request that sends one header `X`. */
  function SendsX(value: string): Header {
    map["X" := [value]]
  }

  lemma ValueOfX(value: string)
    requires value != "" && !IsSpace(value[0]) && !IsSpace(value[|value| - 1])
    ensures Get(SendsX(value), "X") == value && TrimSpace(value) == value
  {
    assert CanonicalHeaderKey("X") == "X";
  }

  lemma EncodedColonIsUnreadable()
    ensures IsBytes("a%3Ab") && !Readable("a%3Ab")
  {
    assert OccursAt("a%3Ab", ENCODED_COLON, 1);
  }

  lemma SeparatorIsUnreadable()
    ensures IsBytes(VARY_SEPARATOR) && !Readable(VARY_SEPARATOR)
  {
    assert OccursAt(VARY_SEPARATOR, VARY_SEPARATOR, 0);
  }

  lemma OneName(value: string)
    requires IsBytes(value) && value != "" && !IsSpace(value[0]) && !IsSpace(value[|value| - 1])
    ensures Names(["X"]) && ByteValues(SendsX(value), ["X"])
    ensures Readable(value) <==> AllReadable(SendsX(value), ["X"])
  {
    hide IsBytes, Readable, TrimSpace, SendsX, Get;
    ValueOfX(value);
    assert ["X"][0] == "X";
  }

  /** Requests whose own keys are not accepted: the value holds the text `%3A`, or the separator. */
  lemma OwnKeyIsRejected(value: string)
    requires value == "a%3Ab" || value == "{-VARY-}"
    ensures Names(["X"]) && ByteValues(SendsX(value), ["X"])
    ensures VoteSpec("key", SendsX(value), "key" + PrintedSuffix(SendsX(value), ["X"])) != Accepts
  {
    hide IsBytes, Readable, SendsX, Names, ByteValues, AllReadable, VoteSpec, PrintedSuffix, SendsTrimmedValues;
    EncodedColonIsUnreadable();
    SeparatorIsUnreadable();
    OneName(value);
    OwnKeyAccepted("key", SendsX(value), ["X"]);
  }

  // ---- Two requests that print the same key

  /** Two values print alike: they are equal, or one is the literal escaped text of the other. */
  ghost predicate PrintAlike(a: string, b: string)
    requires IsBytes(a) && IsBytes(b)
  {
    a == b
    || (NeedsEscape(a) && !NeedsEscape(b) && b == QueryEscape(a))
    || (NeedsEscape(b) && !NeedsEscape(a) && a == QueryEscape(b))
  }

  lemma PrintValueEqual(a: string, b: string)
    requires IsBytes(a) && IsBytes(b)
    ensures PrintValue(a) == PrintValue(b) <==> PrintAlike(a, b)
    ensures !NeedsEscape(a) && !NeedsEscape(b) ==> (PrintAlike(a, b) <==> a == b)
    ensures Readable(a) && Readable(b) ==> (PrintAlike(a, b) <==> a == b)
  {
    if NeedsEscape(a) {
      EscapeAlphabet(a);
      EscapedSeparatorShows(a);
    }
    if NeedsEscape(b) {
      EscapeAlphabet(b);
      EscapedSeparatorShows(b);
    }
    if NeedsEscape(a) && NeedsEscape(b) && PrintValue(a) == PrintValue(b) {
      EscapeInjective(a, b);
    }
  }

  lemma ItemsPrintAlike(p: Header, r: Header, name: string)
    requires IsBytes(TrimSpace(Get(p, name))) && IsBytes(TrimSpace(Get(r, name)))
    ensures PrintItem(p, name) == PrintItem(r, name) <==> PrintAlike(TrimSpace(Get(p, name)), TrimSpace(Get(r, name)))
    ensures Readable(TrimSpace(Get(p, name))) && Readable(TrimSpace(Get(r, name))) &&
            PrintItem(p, name) == PrintItem(r, name) ==>
              TrimSpace(Get(p, name)) == TrimSpace(Get(r, name))
  {
    hide Get, TrimSpace, IsBytes, PrintValue, PrintAlike, Readable;
    var a, b := TrimSpace(Get(p, name)), TrimSpace(Get(r, name));
    PrintValueEqual(a, b);
    assert PrintItem(p, name)[|name| + 1..] == PrintValue(a);
    assert PrintItem(r, name)[|name| + 1..] == PrintValue(b);
  }

  /** For one list of names, two requests print the same suffix if and only if their trimmed values print
      alike header by header; for readable values that means they are equal. */
  lemma SameSuffixExactly(p: Header, r: Header, names: seq<string>)
    requires Names(names) && ByteValues(p, names) && ByteValues(r, names)
    ensures PrintedSuffix(p, names) == PrintedSuffix(r, names) <==>
            forall i :: 0 <= i < |names| ==> PrintAlike(TrimSpace(Get(p, names[i])), TrimSpace(Get(r, names[i])))
    ensures AllReadable(p, names) && AllReadable(r, names) && PrintedSuffix(p, names) == PrintedSuffix(r, names) ==>
              forall i :: 0 <= i < |names| ==> TrimSpace(Get(p, names[i])) == TrimSpace(Get(r, names[i]))
  {
    hide Get, TrimSpace, IsBytes, PrintItem, PrintAlike, Readable, Split;
    if names != [] {
      var ps, rs := PrintItems(p, names), PrintItems(r, names);
      ItemsHaveNoSeparator(p, names);
      ItemsHaveNoSeparator(r, names);
      SplitOfJoin(ps, ';');
      SplitOfJoin(rs, ';');
      assert PrintedSuffix(p, names)[8..] == Join(ps, ITEM_SEPARATOR);
      assert PrintedSuffix(r, names)[8..] == Join(rs, ITEM_SEPARATOR);
      forall i | 0 <= i < |names|
        ensures ps[i] == rs[i] <==> PrintAlike(TrimSpace(Get(p, names[i])), TrimSpace(Get(r, names[i])))
        ensures AllReadable(p, names) && AllReadable(r, names) && ps[i] == rs[i] ==>
                  TrimSpace(Get(p, names[i])) == TrimSpace(Get(r, names[i]))
      {
        ItemsPrintAlike(p, r, names[i]);
      }
      if forall i :: 0 <= i < |names| ==> PrintAlike(TrimSpace(Get(p, names[i])), TrimSpace(Get(r, names[i]))) {
        assert ps == rs;
      }
    }
  }

  lemma EscapeStep(c: char, rest: string)
    requires IsBytes([c] + rest)
    ensures c as int < 256 && IsBytes(rest) && QueryEscape([c] + rest) == EscapeByte(c) + QueryEscape(rest)
  {
    var s := [c] + rest;
    assert s[0] == c && s[1..] == rest;
    forall i | 0 <= i < |rest|
      ensures rest[i] as int < 256
    {
      assert rest[i] == s[i + 1];
    }
  }

  lemma EscapeOfColon()
    ensures QueryEscape("a:b") == "a%3Ab" && NeedsEscape("a:b") && !NeedsEscape("a%3Ab")
  {
    hide QueryEscape;
    assert "a:b"[1] == ':';
    assert "a:b" == ['a'] + ":b" && ":b" == [':'] + "b" && "b" == ['b'] + "";
    EscapeStep('a', ":b");
    EscapeStep(':', "b");
    EscapeStep('b', "");
    EscapeAlphabet("");
  }

  /** `a:b` and the literal text `a%3Ab` print the same suffix. */
  lemma EscapedTextPrintsAlike()
    ensures ByteValues(SendsX("a:b"), ["X"]) && ByteValues(SendsX("a%3Ab"), ["X"])
    ensures PrintedSuffix(SendsX("a:b"), ["X"]) == PrintedSuffix(SendsX("a%3Ab"), ["X"])
  {
    hide Readable, SendsX, Names, AllReadable, PrintedSuffix, QueryEscape, NeedsEscape, Get, TrimSpace;
    EscapeOfColon();
    ValueOfX("a:b");
    ValueOfX("a%3Ab");
    OneName("a:b");
    OneName("a%3Ab");
    SameSuffixExactly(SendsX("a:b"), SendsX("a%3Ab"), ["X"]);
  }
}
