/** The string operations of Go's `strings` package that the cache keys and tag records are built with.
    A Go string is a sequence of bytes; here every `char` stands for one byte. */
module Strings {

  /** `s` is a Go string: each of its characters is a byte. */
  ghost predicate IsBytes(s: string) {
    forall i :: 0 <= i < |s| ==> s[i] as int < 256
  }

  predicate HasPrefix(s: string, prefix: string) {
    prefix <= s
  }

  predicate HasSuffix(s: string, suffix: string) {
    |suffix| <= |s| && s[|s| - |suffix|..] == suffix
  }

  predicate OccursAt(s: string, sub: string, i: int) {
    0 <= i <= |s| - |sub| && s[i..i + |sub|] == sub
  }

  predicate Contains(s: string, sub: string) {
    exists i :: 0 <= i <= |s| && OccursAt(s, sub, i)
  }

  /** The characters of the word stand at this position. */
  predicate ReadsAt(text: string, word: string, i: nat) {
    i + |word| <= |text| && forall j :: 0 <= j < |word| ==> text[i + j] == word[j]
  }

  /** The word stands somewhere in the text. */
  ghost predicate Reads(text: string, word: string) {
    exists i: nat :: ReadsAt(text, word, i)
  }

  /** `Contains`, on character positions. */
  lemma ContainsReads(text: string, word: string)
    ensures Contains(text, word) <==> Reads(text, word)
  {
    if Contains(text, word) {
      var i :| 0 <= i <= |text| && OccursAt(text, word, i);
      OccursChars(text, word, i);
      assert ReadsAt(text, word, i);
    }
    if i: nat :| ReadsAt(text, word, i) {
      assert text[i..i + |word|] == word;
      assert OccursAt(text, word, i);
    }
  }

  /** `strings.LastIndex`. */
  function LastIndex(s: string, sub: string): (r: int)
    ensures r == -1 || OccursAt(s, sub, r)
    ensures forall j :: r < j ==> !OccursAt(s, sub, j)
    ensures r >= 0 <==> Contains(s, sub)
  {
    LastIndexUpTo(s, sub, |s|)
  }

  function LastIndexUpTo(s: string, sub: string, n: int): (r: int)
    requires -1 <= n
    ensures r == -1 || (r <= n && OccursAt(s, sub, r))
    ensures forall j :: r < j <= n ==> !OccursAt(s, sub, j)
  {
    if n < 0 || OccursAt(s, sub, n) then n else LastIndexUpTo(s, sub, n - 1)
  }

  lemma OccursShift(before: string, s: string, after: string, sub: string, i: int)
    requires OccursAt(s, sub, i)
    ensures OccursAt(before + s + after, sub, |before| + i)
  {
    assert (before + s + after)[|before| + i..|before| + i + |sub|] == s[i..i + |sub|];
  }

  lemma OccursInside(before: string, s: string, after: string, sub: string, i: int)
    requires OccursAt(before + s + after, sub, i) && |before| <= i && i + |sub| <= |before| + |s|
    ensures OccursAt(s, sub, i - |before|)
  {
    assert (before + s + after)[i..i + |sub|] == s[i - |before|..i - |before| + |sub|];
  }

  lemma OccursChars(s: string, sub: string, i: int)
    ensures OccursAt(s, sub, i) ==> forall j :: i <= j < i + |sub| ==> s[j] == sub[j - i]
    ensures OccursAt(s, sub, i) && sub != "" ==> s[i] == sub[0]
  {
    if OccursAt(s, sub, i) {
      forall j | i <= j < i + |sub|
        ensures s[j] == sub[j - i]
      {
        assert s[i..i + |sub|][j - i] == s[j];
      }
    }
  }

  /** `strings.Split` for a non-empty separator. */
  function Split(s: string, sep: string): (parts: seq<string>)
    requires sep != ""
    ensures parts != []
  {
    if s == "" then [""]
    else if sep <= s then [""] + Split(s[|sep|..], sep)
    else var rest := Split(s[1..], sep); [[s[0]] + rest[0]] + rest[1..]
  }

  /** `strings.Join`. */
  function Join(parts: seq<string>, sep: string): string {
    if parts == [] then ""
    else if |parts| == 1 then parts[0]
    else parts[0] + sep + Join(parts[1..], sep)
  }

  predicate IsSpace(c: char) {
    c in " \t\n\r" || c as int == 11 || c as int == 12
  }

  function TrimLeft(s: string): string {
    if s != "" && IsSpace(s[0]) then TrimLeft(s[1..]) else s
  }

  function TrimRight(s: string): string {
    if s != "" && IsSpace(s[|s| - 1]) then TrimRight(s[..|s| - 1]) else s
  }

  /** `strings.TrimSpace` on ASCII white space. */
  function TrimSpace(s: string): string {
    TrimRight(TrimLeft(s))
  }

  /** The elements of `s` in the order of their first occurrence. */
  function Distinct<T(==)>(s: seq<T>): seq<T> {
    if s == [] then []
    else
      var front, last := Distinct(s[..|s| - 1]), s[|s| - 1];
      if last in front then front else front + [last]
  }

  ghost predicate NoDuplicates<T>(s: seq<T>) {
    forall i, j :: 0 <= i < j < |s| ==> s[i] != s[j]
  }

  lemma {:induction false} DistinctProperties<T>(s: seq<T>)
    ensures NoDuplicates(Distinct(s))
    ensures forall x :: x in Distinct(s) <==> x in s
  {
    if s != [] {
      var front := s[..|s| - 1];
      DistinctProperties(front);
      assert s == front + [s[|s| - 1]];
    }
  }

  lemma DistinctLast<T>(s: seq<T>, x: T)
    ensures Distinct(s + [x]) == if x in Distinct(s) then Distinct(s) else Distinct(s) + [x]
  {
    assert (s + [x])[..|s|] == s;
  }

  // ---- Splitting at a single character

  lemma {:induction false} SplitWithoutSeparator(s: string, c: char)
    requires c !in s
    ensures Split(s, [c]) == [s]
  {
    if s != "" {
      SplitWithoutSeparator(s[1..], c);
      assert [s[0]] + s[1..] == s;
    }
  }

  lemma {:induction false} SplitAtSeparator(a: string, c: char, b: string)
    ensures Split(a + [c] + b, [c]) == Split(a, [c]) + Split(b, [c])
  {
    var s := a + [c] + b;
    SplitStep(s, c);
    if a == "" {
      assert s[1..] == b;
    } else {
      hide Split;
      SplitStep(a, c);
      assert s[1..] == a[1..] + [c] + b && s[0] == a[0];
      SplitAtSeparator(a[1..], c, b);
      HeadOfConcat(a[0], Split(a[1..], [c]), Split(b, [c]));
    }
  }

  lemma HeadOfConcat(first: char, x: seq<string>, y: seq<string>)
    requires x != []
    ensures [""] + (x + y) == [""] + x + y
    ensures [[first] + (x + y)[0]] + (x + y)[1..] == [[first] + x[0]] + x[1..] + y
  {
    assert (x + y)[1..] == x[1..] + y;
  }

  lemma SplitStep(s: string, c: char)
    requires s != ""
    ensures Split(s, [c]) ==
            if s[0] == c then [""] + Split(s[1..], [c])
            else [[s[0]] + Split(s[1..], [c])[0]] + Split(s[1..], [c])[1..]
  {
    assert [c] <= s <==> s[0] == c;
  }

  /** Splitting undoes joining as long as no part contains the separator. */
  lemma {:induction false} SplitOfJoin(parts: seq<string>, c: char)
    requires parts != [] && forall p :: p in parts ==> c !in p
    ensures Split(Join(parts, [c]), [c]) == parts
  {
    SplitWithoutSeparator(parts[0], c);
    if |parts| > 1 {
      SplitAtSeparator(parts[0], c, Join(parts[1..], [c]));
      SplitOfJoin(parts[1..], c);
    }
  }

  lemma {:induction false} JoinAppend(parts: seq<string>, last: string, sep: string)
    requires parts != []
    ensures Join(parts + [last], sep) == Join(parts, sep) + sep + last
  {
    if |parts| == 1 {
      assert (parts + [last])[1..] == [last];
    } else {
      JoinAppend(parts[1..], last, sep);
      assert (parts + [last])[1..] == parts[1..] + [last];
      assert parts[0] + sep + (Join(parts[1..], sep) + sep + last) ==
             parts[0] + sep + Join(parts[1..], sep) + sep + last;
    }
  }

  lemma {:induction false} SplitPartsAreClean(s: string, c: char)
    ensures forall p :: p in Split(s, [c]) ==> c !in p
    ensures c in s ==> |Split(s, [c])| > 1
  {
    if s != "" {
      SplitStep(s, c);
      SplitPartsAreClean(s[1..], c);
    }
  }

  // ---- Splitting at a comma and a blank

  lemma {:induction false} SplitWithoutComma(s: string)
    requires ',' !in s
    ensures Split(s, ", ") == [s]
  {
    if s != "" {
      SplitWithoutComma(s[1..]);
      assert [s[0]] + s[1..] == s;
    }
  }

  lemma {:induction false} SplitAtCommaBlank(a: string, b: string)
    requires ',' !in a
    ensures Split(a + ", " + b, ", ") == [a] + Split(b, ", ")
  {
    var s := a + ", " + b;
    if a == "" {
      assert s[2..] == b && ", " <= s;
    } else {
      assert s[0] == a[0] && s[1..] == a[1..] + ", " + b;
      SplitAtCommaBlank(a[1..], b);
      assert [a[0]] + a[1..] == a;
    }
  }

  /** Splitting a list with comma and blank undoes joining it, as long as no part has a comma. */
  lemma {:induction false} SplitOfJoinedList(parts: seq<string>)
    requires parts != [] && forall p :: p in parts ==> ',' !in p
    ensures Split(Join(parts, ", "), ", ") == parts
  {
    if |parts| == 1 {
      SplitWithoutComma(parts[0]);
    } else {
      SplitAtCommaBlank(parts[0], Join(parts[1..], ", "));
      SplitOfJoinedList(parts[1..]);
    }
  }

  // ---- Trimming

  lemma {:induction false} TrimLeftKeeps(s: string, c: char)
    requires c !in s
    ensures c !in TrimLeft(s)
  {
    if s != "" && IsSpace(s[0]) {
      TrimLeftKeeps(s[1..], c);
    }
  }

  lemma {:induction false} TrimRightKeeps(s: string, c: char)
    requires c !in s
    ensures c !in TrimRight(s)
  {
    if s != "" && IsSpace(s[|s| - 1]) {
      TrimRightKeeps(s[..|s| - 1], c);
    }
  }

  lemma TrimKeeps(s: string, c: char)
    requires c !in s
    ensures c !in TrimSpace(s)
  {
    TrimLeftKeeps(s, c);
    TrimRightKeeps(TrimLeft(s), c);
  }

  lemma {:induction false} TrimLeftDone(s: string)
    ensures TrimLeft(s) == "" || !IsSpace(TrimLeft(s)[0])
  {
    if s != "" && IsSpace(s[0]) {
      TrimLeftDone(s[1..]);
    }
  }

  lemma {:induction false} TrimRightDone(s: string)
    ensures TrimRight(s) <= s && (TrimRight(s) == "" || !IsSpace(TrimRight(s)[|TrimRight(s)| - 1]))
  {
    if s != "" && IsSpace(s[|s| - 1]) {
      TrimRightDone(s[..|s| - 1]);
    }
  }

  /** The white space of ASCII: blank, tab, line feed, vertical tab, form feed, carriage return. */
  predicate AllSpace(s: string) {
    forall i :: 0 <= i < |s| ==> s[i] == ' ' || 9 <= s[i] as int <= 13
  }

  lemma SpaceIs(c: char)
    ensures IsSpace(c) <==> AllSpace([c])
  {
    assert [c][0] == c;
    assert IsSpace(c) <==> c == ' ' || 9 <= c as int <= 13;
  }

  lemma AllSpaceAppend(a: string, b: string)
    ensures AllSpace(a + b) <==> AllSpace(a) && AllSpace(b)
  {
    if AllSpace(a + b) {
      forall i | 0 <= i < |a|
        ensures a[i] == ' ' || 9 <= a[i] as int <= 13
      {
        assert (a + b)[i] == a[i];
      }
      forall i | 0 <= i < |b|
        ensures b[i] == ' ' || 9 <= b[i] as int <= 13
      {
        assert (a + b)[|a| + i] == b[i];
      }
    }
  }

  /** Trimming cuts the white space off both ends, and nothing else. */
  lemma TrimCuts(s: string) returns (before: string, after: string)
    ensures s == before + TrimSpace(s) + after && AllSpace(before) && AllSpace(after)
    ensures TrimSpace(s) != "" ==> !AllSpace([TrimSpace(s)[0]]) && !AllSpace([TrimSpace(s)[|TrimSpace(s)| - 1]])
  {
    hide AllSpace, IsSpace;
    before := TrimLeftCuts(s);
    after := TrimRightCuts(TrimLeft(s));
    assert s == before + (TrimSpace(s) + after);
    TrimLeftDone(s);
    TrimRightDone(TrimLeft(s));
    if TrimSpace(s) != "" {
      assert TrimSpace(s)[0] == TrimLeft(s)[0];
      SpaceIs(TrimSpace(s)[0]);
      SpaceIs(TrimSpace(s)[|TrimSpace(s)| - 1]);
    }
  }

  lemma {:induction false} TrimLeftCuts(s: string) returns (before: string)
    ensures s == before + TrimLeft(s) && AllSpace(before)
  {
    if s != "" && IsSpace(s[0]) {
      hide AllSpace, IsSpace;
      before := TrimLeftCuts(s[1..]);
      SpaceIs(s[0]);
      AllSpaceAppend([s[0]], before);
      before := [s[0]] + before;
      assert s == [s[0]] + s[1..];
    } else {
      before := "";
    }
  }

  lemma {:induction false} TrimRightCuts(s: string) returns (after: string)
    ensures s == TrimRight(s) + after && AllSpace(after)
  {
    if s != "" && IsSpace(s[|s| - 1]) {
      hide AllSpace, IsSpace;
      after := TrimRightCuts(s[..|s| - 1]);
      SpaceIs(s[|s| - 1]);
      AllSpaceAppend(after, [s[|s| - 1]]);
      after := after + [s[|s| - 1]];
      assert s == s[..|s| - 1] + [s[|s| - 1]];
    } else {
      after := "";
    }
  }

  lemma TrimTwice(s: string)
    ensures TrimSpace(TrimSpace(s)) == TrimSpace(s)
  {
    TrimLeftDone(s);
    TrimRightDone(TrimLeft(s));
  }
}
