/** The request's conditional headers: `ParseRequest` and `ValidateETagFromHeader`. */
module Validator {
  import opened Wrappers
  import opened Strings
  import opened HttpHeader
  import opened Messages

  function TrimBlanksLeft(s: string): string {
    if s != "" && s[0] == ' ' then TrimBlanksLeft(s[1..]) else s
  }

  function TrimBlanksRight(s: string): string {
    if s != "" && s[|s| - 1] == ' ' then TrimBlanksRight(s[..|s| - 1]) else s
  }

  function TrimBlanks(s: string): string {
    TrimBlanksRight(TrimBlanksLeft(s))
  }

  /** The entity tags split from the first If-None-Match line. */
  function RequestETags(rq: Header): (tags: seq<string>)
    ensures tags == [] <==> Get(rq, "If-None-Match") == ""
  {
    var line := Get(rq, "If-None-Match");
    if line == "" then []
    else var tags := Split(line, ","); seq(|tags|, i requires 0 <= i < |tags| => TrimBlanks(tags[i]))
  }

  /** The value of a validator. */
  datatype View = View(
    matched: bool, ifNoneMatchPresent: bool, ifMatchPresent: bool,
    ifModifiedSincePresent: bool, ifUnmodifiedSincePresent: bool,
    needRevalidation: bool, notModified: bool,
    ifNoneMatch: seq<string>, ifMatch: seq<string>, requestETags: seq<string>, responseETag: string)

  /** The validator of a request before any entry was examined. */
  function Parsed(rq: Header): View {
    var conditional := Get(rq, "If-Modified-Since") != "" || Get(rq, "If-Unmodified-Since") != "";
    View(false, Values(rq, "If-None-Match") != [], false,
         Get(rq, "If-Modified-Since") != "", Get(rq, "If-Unmodified-Since") != "",
         conditional, RequestETags(rq) != [],
         Values(rq, "If-None-Match"), [], RequestETags(rq), "")
  }

  predicate Listed(etag: string, lines: seq<string>) {
    exists i :: 0 <= i < |lines| && (lines[i] == "*" || lines[i] == etag)
  }

  /** The validator after `ValidateETagFromHeader` on an entry with this entity tag. */
  function Validated(v: View, etag: string): View {
    var w := v.(responseETag := etag, needRevalidation := v.needRevalidation || etag != "");
    if v.requestETags == [] then w.(matched := true, notModified := false)
    else if v.ifNoneMatchPresent then w.(matched := Listed(etag, v.ifNoneMatch))
    else if v.ifMatchPresent then w.(matched := etag != "" && Listed(etag, v.ifMatch))
    else w.(matched := etag == "")
  }

  class Revalidator {
    var matched: bool
    var ifNoneMatchPresent: bool
    var ifMatchPresent: bool
    var ifModifiedSincePresent: bool
    var ifUnmodifiedSincePresent: bool
    var needRevalidation: bool
    var notModified: bool
    var ifNoneMatch: seq<string>
    var ifMatch: seq<string>
    var requestETags: seq<string>
    var responseETag: string
    var ifModifiedSince: Option<Time>      // None is the zero time: absent or malformed
    var ifUnmodifiedSince: Option<Time>

    ghost function Value(): View
      reads this
    {
      View(matched, ifNoneMatchPresent, ifMatchPresent, ifModifiedSincePresent, ifUnmodifiedSincePresent,
           needRevalidation, notModified, ifNoneMatch, ifMatch, requestETags, responseETag)
    }

    /** `ParseRequest`; `parseDate` reads a date in the format of RFC 1123. */
    constructor ParseRequest(rq: Header, parseDate: string -> Option<Time>)
      ensures Value() == Parsed(rq)
      ensures ifModifiedSince == if ifModifiedSincePresent then parseDate(Get(rq, "If-Modified-Since")) else None
      ensures ifUnmodifiedSince == if ifUnmodifiedSincePresent then parseDate(Get(rq, "If-Unmodified-Since")) else None
    {
      hide RequestETags, Get;
      var rqEtags := TrimmedETags(rq);
      matched, ifMatchPresent, responseETag, ifMatch := false, false, "", [];
      notModified := |rqEtags| > 0;
      requestETags := rqEtags;
      ifModifiedSincePresent := Get(rq, "If-Modified-Since") != "";
      ifUnmodifiedSincePresent := Get(rq, "If-Unmodified-Since") != "";
      needRevalidation := Get(rq, "If-Modified-Since") != "" || Get(rq, "If-Unmodified-Since") != "";
      ifNoneMatchPresent := |Values(rq, "If-None-Match")| > 0;
      ifNoneMatch := Values(rq, "If-None-Match");
      ifModifiedSince := if Get(rq, "If-Modified-Since") != "" then parseDate(Get(rq, "If-Modified-Since")) else None;
      ifUnmodifiedSince :=
        if Get(rq, "If-Unmodified-Since") != "" then parseDate(Get(rq, "If-Unmodified-Since")) else None;
    }

    method ValidateETagFromHeader(etag: string)
      modifies this
      ensures Value() == Validated(old(Value()), etag)
      ensures ifModifiedSince == old(ifModifiedSince) && ifUnmodifiedSince == old(ifUnmodifiedSince)
    {
      responseETag := etag;
      needRevalidation := needRevalidation || responseETag != "";
      matched := responseETag == "" || (responseETag != "" && |requestETags| == 0);
      if |requestETags| == 0 {
        notModified := false;
        return;
      }
      if ifNoneMatchPresent {
        matched := IsListed(responseETag, ifNoneMatch);
        return;
      }
      if ifMatchPresent {
        matched := false;
        if responseETag == "" {
          return;
        }
        matched := IsListed(responseETag, ifMatch);
      }
    }
  }

  /** The loop of `ParseRequest` that trims each tag in place. */
  method TrimmedETags(rq: Header) returns (tags: seq<string>)
    ensures tags == RequestETags(rq)
  {
    if |Get(rq, "If-None-Match")| == 0 {
      return [];
    }
    tags := Split(Get(rq, "If-None-Match"), ",");
    ghost var raw := tags;
    for i := 0 to |tags|
      invariant |tags| == |raw|
      invariant forall k :: 0 <= k < i ==> tags[k] == TrimBlanks(raw[k])
      invariant forall k :: i <= k < |raw| ==> tags[k] == raw[k]
    {
      tags := tags[i := TrimBlanks(tags[i])];
    }
  }

  /** The loops of `ValidateETagFromHeader` over the header lines. */
  method IsListed(etag: string, lines: seq<string>) returns (found: bool)
    ensures found == Listed(etag, lines)
  {
    for i := 0 to |lines|
      invariant forall k :: 0 <= k < i ==> lines[k] != "*" && lines[k] != etag
    {
      if lines[i] == "*" || lines[i] == etag {
        return true;
      }
    }
    return false;
  }

  /** The validator after a sequence of entries was examined, in any order. */
  function ValidatedAll(v: View, etags: seq<string>): View {
    if etags == [] then v else Validated(ValidatedAll(v, etags[..|etags| - 1]), etags[|etags| - 1])
  }

  lemma ValidatedOneMore(v: View, etags: seq<string>, etag: string)
    ensures ValidatedAll(v, etags + [etag]) == Validated(ValidatedAll(v, etags), etag)
  {
    assert (etags + [etag])[..|etags|] == etags;
  }

  /** The entity-tag rule: without If-None-Match everything matches; with it, one raw line must be `*` or the tag. */
  predicate ETagRule(rq: Header, etag: string) {
    Get(rq, "If-None-Match") == "" || Listed(etag, Values(rq, "If-None-Match"))
  }

  /** What the request decided stays as parsed, whatever entries were examined before. */
  lemma {:induction false} ValidatedAllKeepsRequest(rq: Header, etags: seq<string>)
    ensures var v := ValidatedAll(Parsed(rq), etags);
            && v.requestETags == RequestETags(rq) && v.ifNoneMatch == Values(rq, "If-None-Match")
            && v.ifNoneMatchPresent == (Values(rq, "If-None-Match") != []) && !v.ifMatchPresent
            && v.ifModifiedSincePresent == (Get(rq, "If-Modified-Since") != "")
            && v.ifUnmodifiedSincePresent == (Get(rq, "If-Unmodified-Since") != "")
            && (v.notModified <==> Get(rq, "If-None-Match") != "")
  {
    if etags != [] {
      ValidatedAllKeepsRequest(rq, etags[..|etags| - 1]);
    }
  }

  ghost predicate SomeTag(etags: seq<string>) {
    exists i :: 0 <= i < |etags| && etags[i] != ""
  }

  lemma {:induction false} TagsCallForRevalidation(v: View, etags: seq<string>)
    ensures ValidatedAll(v, etags).needRevalidation <==> v.needRevalidation || SomeTag(etags)
  {
    if etags != [] {
      hide Validated, SomeTag;
      var front, last := etags[..|etags| - 1], etags[|etags| - 1];
      TagsCallForRevalidation(v, front);
      TagCallsForRevalidation(ValidatedAll(v, front), last);
      SomeTagOneMore(front, last);
      assert etags == front + [last];
    }
  }

  lemma TagCallsForRevalidation(v: View, etag: string)
    ensures Validated(v, etag).needRevalidation <==> v.needRevalidation || etag != ""
  {
    hide Listed;
  }

  lemma SomeTagOneMore(front: seq<string>, last: string)
    ensures SomeTag(front + [last]) <==> SomeTag(front) || last != ""
  {
    var etags := front + [last];
    if SomeTag(front) {
      var i :| 0 <= i < |front| && front[i] != "";
      assert etags[i] != "";
    }
    if last != "" {
      assert etags[|front|] != "";
    }
    if SomeTag(etags) {
      var i :| 0 <= i < |etags| && etags[i] != "";
      assert i < |front| ==> front[i] != "";
    }
  }

  /** A revalidation is called for by a date condition, or by any examined entry that has a tag. */
  lemma NeedsRevalidationExactly(rq: Header, etags: seq<string>)
    ensures ValidatedAll(Parsed(rq), etags).needRevalidation <==>
            Get(rq, "If-Modified-Since") != "" || Get(rq, "If-Unmodified-Since") != "" || SomeTag(etags)
  {
    TagsCallForRevalidation(Parsed(rq), etags);
  }

  /** The match of an entry depends on the request and its own tag only, not on the entries examined before it. */
  lemma MatchIsTheRule(rq: Header, before: seq<string>, etag: string)
    ensures Validated(ValidatedAll(Parsed(rq), before), etag).matched <==> ETagRule(rq, etag)
  {
    ValidatedAllKeepsRequest(rq, before);
  }

  /** An entry matches if and only if the request sends no If-None-Match, or an empty first one, or one of its lines is
      `*` or the whole tag; a tag that is no line of its own is not matched. */
  lemma MatchExactly(rq: Header, before: seq<string>, etag: string)
    ensures Validated(ValidatedAll(Parsed(rq), before), etag).matched <==>
            || Values(rq, "If-None-Match") == [] || Values(rq, "If-None-Match")[0] == ""
            || "*" in Values(rq, "If-None-Match") || etag in Values(rq, "If-None-Match")
    ensures Validated(ValidatedAll(Parsed(rq), before), etag).responseETag == etag
  {
    hide Parsed, ValidatedAll;
    MatchIsTheRule(rq, before, etag);
  }

  // ---- Lists of tags

  /** A client that lists its tags on one If-None-Match line has every one of them matched if and only if the line is
      `*`, or a single tag without surrounding white space. */
  lemma OneLineMatchesExactly(rq: Header, line: string)
    requires Values(rq, "If-None-Match") == [line] && line != ""
    ensures (forall tag :: tag in TrimAll(Split(line, ",")) ==> ETagRule(rq, tag)) <==>
            line == "*" || (',' !in line && TrimSpace(line) == line)
  {
    hide TrimSpace;
    var parts := Split(line, ",");
    var tags := TrimAll(parts);
    assert forall tag :: ETagRule(rq, tag) <==> line == "*" || line == tag;
    assert tags[0] in tags;
    if ',' in line {
      SplitPartsAreClean(line, ',');
      TrimKeeps(parts[0], ',');
      assert line != "*";
    } else {
      SplitWithoutSeparator(line, ',');
    }
  }

  lemma {:induction false} FieldOf(lines: seq<string>, tag: string)
    ensures tag in CommaSepFields(lines) <==>
            exists i :: 0 <= i < |lines| && tag in TrimAll(Split(lines[i], ","))
  {
    hide TrimAll, Split;
    if lines != [] {
      var front, last := lines[..|lines| - 1], lines[|lines| - 1];
      FieldOf(front, tag);
      if tag in CommaSepFields(front) {
        var i :| 0 <= i < |front| && tag in TrimAll(Split(front[i], ","));
        assert lines[i] == front[i];
      }
      assert tag in TrimAll(Split(last, ",")) ==> tag in TrimAll(Split(lines[|lines| - 1], ","));
      if i :| 0 <= i < |lines| && tag in TrimAll(Split(lines[i], ",")) && i != |lines| - 1 {
        assert front[i] == lines[i];
      }
    }
  }

  lemma {:induction false} FieldOfTwoLines(lines: seq<string>, i: nat, j: nat, tag: string)
    requires i < j < |lines| && tag in TrimAll(Split(lines[i], ",")) && tag in TrimAll(Split(lines[j], ","))
    ensures !NoDuplicates(CommaSepFields(lines))
  {
    hide TrimAll, Split;
    var front, last := lines[..|lines| - 1], TrimAll(Split(lines[|lines| - 1], ","));
    var fields := CommaSepFields(front);
    assert front[i] == lines[i];
    if j == |lines| - 1 {
      FieldOf(front, tag);
      var p :| 0 <= p < |fields| && fields[p] == tag;
      var q :| 0 <= q < |last| && last[q] == tag;
      assert CommaSepFields(lines)[p] == CommaSepFields(lines)[|fields| + q];
    } else {
      assert front[j] == lines[j];
      FieldOfTwoLines(front, i, j, tag);
      var p, q :| 0 <= p < q < |fields| && fields[p] == fields[q];
      assert CommaSepFields(lines)[p] == CommaSepFields(lines)[q];
    }
  }

  /** One tag, and nothing around it. */
  predicate IsWholeTag(line: string) {
    ',' !in line && TrimSpace(line) == line
  }

  lemma WholeTagIsItsField(line: string)
    requires IsWholeTag(line)
    ensures TrimAll(Split(line, ",")) == [line]
  {
    SplitWithoutSeparator(line, ',');
  }

  /** The parts of a line are whole tags. */
  lemma FieldIsWholeTag(line: string)
    ensures TrimAll(Split(line, ",")) != [] && IsWholeTag(TrimAll(Split(line, ","))[0])
    ensures TrimAll(Split(line, ",")) == [line] ==> IsWholeTag(line)
  {
    hide TrimSpace;
    SplitPartsAreClean(line, ',');
    var part := Split(line, ",")[0];
    TrimKeeps(part, ',');
    TrimTwice(part);
  }

  /** Every tag the client lists, on any of its lines, is matched. */
  ghost predicate AllTagsMatch(rq: Header) {
    forall tag :: tag in CommaSepFields(Values(rq, "If-None-Match")) ==> ETagRule(rq, tag)
  }

  /** For any If-None-Match lines: every tag the client lists is matched if and only if the first line is empty, one
      line is `*`, or each line is a single tag without surrounding white space or repeats tags that have such a line
      of their own; when no tag is listed twice, each line has to be a single tag. */
  lemma ListedTagsMatchExactly(rq: Header)
    ensures var lines := Values(rq, "If-None-Match");
            AllTagsMatch(rq) <==>
            || Get(rq, "If-None-Match") == "" || "*" in lines
            || forall line :: line in lines ==> IsWholeTag(line) || RepeatsLines(line, lines)
    ensures var lines := Values(rq, "If-None-Match");
            NoDuplicates(CommaSepFields(lines)) ==>
              (AllTagsMatch(rq) <==>
               Get(rq, "If-None-Match") == "" || "*" in lines || forall line :: line in lines ==> IsWholeTag(line))
  {
    hide IsWholeTag, TrimAll, Split, NoDuplicates, CommaSepFields;
    var lines := Values(rq, "If-None-Match");
    assert forall tag :: ETagRule(rq, tag) <==> Get(rq, "If-None-Match") == "" || "*" in lines || tag in lines;
    forall tag
      ensures tag in CommaSepFields(lines) <==> exists i :: 0 <= i < |lines| && tag in TrimAll(Split(lines[i], ","))
    {
      FieldOf(lines, tag);
    }
    forall line | IsWholeTag(line)
      ensures TrimAll(Split(line, ",")) == [line]
    {
      WholeTagIsItsField(line);
    }
    if NoDuplicates(CommaSepFields(lines)) {
      forall line | line in lines && RepeatsLines(line, lines)
        ensures IsWholeTag(line)
      {
        RepeatingLineIsWhole(lines, line);
      }
    }
  }

  /** Each tag of the line is a line of its own. */
  predicate RepeatsLines(line: string, lines: seq<string>) {
    forall tag :: tag in TrimAll(Split(line, ",")) ==> tag in lines
  }

  lemma RepeatingLineIsWhole(lines: seq<string>, line: string)
    requires NoDuplicates(CommaSepFields(lines)) && line in lines && RepeatsLines(line, lines)
    ensures IsWholeTag(line)
  {
    hide TrimAll, Split, NoDuplicates, CommaSepFields, IsWholeTag;
    FieldIsWholeTag(line);
    var tag := TrimAll(Split(line, ","))[0];
    assert tag in TrimAll(Split(line, ","));
    WholeTagIsItsField(tag);
    var i :| 0 <= i < |lines| && lines[i] == line;
    var j :| 0 <= j < |lines| && lines[j] == tag;
    if i != j {
      FieldOfTwoLines(lines, if i < j then i else j, if i < j then j else i, tag);
    }
  }

  /** A list of two or more tags on one If-None-Match line matches no entry whose tag is comma-free. */
  lemma ListOnOneLineNeverMatches(rq: Header, etag: string)
    requires |Values(rq, "If-None-Match")| == 1 && ',' in Get(rq, "If-None-Match") && ',' !in etag
    ensures !ETagRule(rq, etag)
  {
    assert Values(rq, "If-None-Match") == [Get(rq, "If-None-Match")];
    assert ',' !in "*";
  }

  /** Two tags on one line: neither of them matches. */
  lemma TwoTagsMatchNothing()
    ensures var rq: Header := map["If-None-Match" := ["\"a\", \"b\""]];
            !ETagRule(rq, "\"a\"") && !ETagRule(rq, "\"b\"")
  {
    var line := "\"a\", \"b\"";
    var rq: Header := map["If-None-Match" := [line]];
    assert CanonicalHeaderKey("If-None-Match") == "If-None-Match";
    assert line[3] == ',';
    ListOnOneLineNeverMatches(rq, "\"a\"");
    ListOnOneLineNeverMatches(rq, "\"b\"");
  }
}
