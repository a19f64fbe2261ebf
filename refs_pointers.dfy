/** The string and slice utilities of rust-refs-pointers/src/main.rs.

    A `&mut String` parameter is a `Buffer` object whose `text` the
    operation replaces; a `&str` or `&[i32]` parameter is a value. Strings
    are sequences of characters; the two places where the source cuts a
    string at a UTF-8 byte length (`truncate` and `&text[..n]`) go through
    `Chars.ByteLen` and `Chars.BoundaryIndex`. */
module RefsPointers {
  import opened Wrappers
  import opened Chars

  /** A `&mut String`. */
  class Buffer {
    var text: string

    constructor (s: string)
      ensures text == s
    {
      text := s;
    }
  }

  function Min(x: int, y: int): int {
    if x <= y then x else y
  }

  // ---------------------------------------------------------------------
  // count_words

  /** Position `i` of `s` begins a maximal run of non-whitespace characters. */
  predicate WordStartAt(s: string, i: nat)
    requires i < |s|
  {
    !IsWhitespace(s[i]) && (i == 0 || IsWhitespace(s[i - 1]))
  }

  /** `count_words`: the number of items `split_whitespace` yields, that is
      the number of positions at which a word begins. */
  function CountWords(s: string): (n: nat)
    ensures n <= |s|
  {
    WordStartsBelow(s, |s|)
  }

  /** The number of word starts among the first `n` positions of `s`. */
  function WordStartsBelow(s: string, n: nat): (k: nat)
    requires n <= |s|
    ensures k <= n
  {
    if n == 0 then 0 else WordStartsBelow(s, n - 1) + (if WordStartAt(s, n - 1) then 1 else 0)
  }

  /** Word starts in a prefix are word starts in the whole string. */
  lemma WordStartPrefix(s: string, t: string, i: nat)
    requires i < |s|
    ensures WordStartAt(s + t, i) == WordStartAt(s, i)
  {
    assert (s + t)[i] == s[i];
    if i > 0 {
      assert (s + t)[i - 1] == s[i - 1];
    }
  }

  lemma {:induction false} WordStartsBelowPrefix(s: string, t: string, n: nat)
    requires n <= |s|
    ensures WordStartsBelow(s + t, n) == WordStartsBelow(s, n)
  {
    if n > 0 {
      WordStartsBelowPrefix(s, t, n - 1);
      WordStartPrefix(s, t, n - 1);
    }
  }

  /** Counting the words of `s` is counting those of all but its last
      character, plus one if the last character begins a word. */
  lemma CountWordsLast(s: string)
    requires s != []
    ensures CountWords(s) == CountWords(s[..|s| - 1]) + (if WordStartAt(s, |s| - 1) then 1 else 0)
  {
    var p := s[..|s| - 1];
    assert s == p + [s[|s| - 1]];
    WordStartsBelowPrefix(p, [s[|s| - 1]], |p|);
  }

  /** A string has no words exactly when it is all whitespace. */
  lemma {:induction false} CountWordsZero(s: string)
    ensures CountWords(s) == 0 <==> AllWhitespace(s)
  {
    if s != [] {
      var p := s[..|s| - 1];
      CountWordsZero(p);
      CountWordsLast(s);
      var last := |s| - 1;
      if AllWhitespace(s) {
        assert forall i :: 0 <= i < |p| ==> p[i] == s[i];
        assert AllWhitespace(p);
        assert !WordStartAt(s, last);
      } else if !IsWhitespace(s[last]) && (last == 0 || IsWhitespace(s[last - 1])) {
        assert WordStartAt(s, last);
      } else if !IsWhitespace(s[last]) {
        assert p[last - 1] == s[last - 1];
        assert !AllWhitespace(p);
      } else {
        var i :| 0 <= i < |s| && !IsWhitespace(s[i]);
        assert i < |p| && p[i] == s[i];
        assert !AllWhitespace(p);
      }
    }
  }

  /** A non-empty run of non-whitespace characters is one word. */
  lemma {:induction false} CountWordsOfWord(w: string)
    requires w != []
    requires forall i :: 0 <= i < |w| ==> !IsWhitespace(w[i])
    ensures CountWords(w) == 1
  {
    var p := w[..|w| - 1];
    CountWordsLast(w);
    if p == [] {
      assert WordStartAt(w, 0);
    } else {
      CountWordsOfWord(p);
      assert w[|w| - 2] == p[|p| - 1];
    }
  }

  /** Words on either side of a whitespace character are counted separately. */
  lemma {:induction false} CountWordsSplit(x: string, ws: char, y: string)
    requires IsWhitespace(ws)
    ensures CountWords(x + [ws] + y) == CountWords(x) + CountWords(y)
    decreases |y|
  {
    var s := x + [ws] + y;
    CountWordsLast(s);
    if y == [] {
      assert s[..|s| - 1] == x;
    } else {
      var y' := y[..|y| - 1];
      assert s[..|s| - 1] == x + [ws] + y';
      CountWordsSplit(x, ws, y');
      CountWordsLast(y);
      assert s[|s| - 1] == y[|y| - 1];
      if |y| == 1 {
        assert s[|s| - 2] == ws;
      } else {
        assert s[|s| - 2] == y[|y| - 2];
      }
    }
  }

  // ---------------------------------------------------------------------
  // append_tag

  /** The text `append_tag` leaves in its buffer. */
  function TagAppended(buffer: string, tag: string): (r: string)
    ensures |r| == |buffer| + |tag| + (if buffer == [] then 0 else 1)
    ensures r[..|buffer|] == buffer && r[|r| - |tag|..] == tag
  {
    if buffer == [] then tag else buffer + " " + tag
  }

  /** Appending a tag adds exactly the tag's words. */
  lemma TagAppendedWords(buffer: string, tag: string)
    ensures CountWords(TagAppended(buffer, tag)) == CountWords(buffer) + CountWords(tag)
  {
    if buffer != [] {
      CountWordsSplit(buffer, ' ', tag);
    }
  }

  /** `append_tag`. */
  method AppendTag(buffer: Buffer, tag: string)
    modifies buffer
    ensures buffer.text == TagAppended(old(buffer.text), tag)
  {
    if buffer.text != [] {
      buffer.text := buffer.text + [' '];
    }
    buffer.text := buffer.text + tag;
  }

  // ---------------------------------------------------------------------
  // str::find

  /** `pat` occurs in `s` at position `i`. */
  predicate MatchAt(s: string, pat: string, i: nat) {
    i + |pat| <= |s| && s[i..i + |pat|] == pat
  }

  /** `str::find` with a string pattern: the first position where `pat` occurs. */
  function Find(s: string, pat: string): (r: Option<nat>)
    ensures r.Some? ==> MatchAt(s, pat, r.value) && forall i :: 0 <= i < r.value ==> !MatchAt(s, pat, i)
    ensures r.None? ==> forall i :: 0 <= i <= |s| ==> !MatchAt(s, pat, i)
  {
    FindFrom(s, pat, 0)
  }

  function FindFrom(s: string, pat: string, j: nat): (r: Option<nat>)
    requires j <= |s|
    ensures r.Some? ==> j <= r.value && MatchAt(s, pat, r.value) && forall i :: j <= i < r.value ==> !MatchAt(s, pat, i)
    ensures r.None? ==> forall i :: j <= i <= |s| ==> !MatchAt(s, pat, i)
    decreases |s| - j
  {
    if MatchAt(s, pat, j) then Some(j)
    else if j == |s| then None
    else FindFrom(s, pat, j + 1)
  }

  // ---------------------------------------------------------------------
  // extract_domain

  /** Where the domain begins: just after the first "://", or at 0. */
  function DomainStart(url: string): (start: nat)
    ensures start <= |url|
  {
    match Find(url, "://")
    case Some(p) => p + 3
    case None => 0
  }

  /** `extract_domain`: the longest run without '/' that begins at `DomainStart`. */
  function ExtractDomain(url: string): (r: string)
    ensures DomainStart(url) + |r| <= |url|
    ensures r == url[DomainStart(url)..DomainStart(url) + |r|]
    ensures forall i :: 0 <= i < |r| ==> r[i] != '/'
    ensures DomainStart(url) + |r| == |url| || url[DomainStart(url) + |r|] == '/'
  {
    var start := DomainStart(url);
    var rest := url[start..];
    match Find(rest, "/")
    case Some(p) =>
      NoSlashBefore(rest, p);
      SlashAt(rest, p);
      assert url[start + p] == rest[p];
      var r := url[start..start + p];
      assert forall i :: 0 <= i < p ==> r[i] == rest[i];
      r
    case None =>
      NoSlashBefore(rest, |rest|);
      assert url[start..start + |rest|] == rest;
      rest
  }

  lemma SlashAt(s: string, p: nat)
    requires MatchAt(s, "/", p)
    ensures p < |s| && s[p] == '/'
  {
    assert s[p..p + 1][0] == s[p];
  }

  /** Where "/" does not occur, no character is '/'. */
  lemma NoSlashBefore(s: string, p: nat)
    requires p <= |s| && forall i :: 0 <= i < p ==> !MatchAt(s, "/", i)
    ensures forall i :: 0 <= i < p ==> s[i] != '/'
  {
    forall i | 0 <= i < p
      ensures s[i] != '/'
    {
      assert !MatchAt(s, "/", i);
      assert s[i..i + 1] == [s[i]];
    }
  }

  /** The contract of `ExtractDomain` pins the domain down: any run without
      '/' that starts at `DomainStart` and ends at '/' or at the end is it. */
  lemma ExtractDomainUnique(url: string, d: string)
    requires DomainStart(url) + |d| <= |url|
    requires d == url[DomainStart(url)..DomainStart(url) + |d|]
    requires forall i :: 0 <= i < |d| ==> d[i] != '/'
    requires DomainStart(url) + |d| == |url| || url[DomainStart(url) + |d|] == '/'
    ensures ExtractDomain(url) == d
  {
    var s, r := DomainStart(url), ExtractDomain(url);
    forall i | s <= i < s + |r|
      ensures url[i] != '/'
    {
      assert r[i - s] == url[i];
    }
    forall i | s <= i < s + |d|
      ensures url[i] != '/'
    {
      assert d[i - s] == url[i];
    }
    assert |r| == |d|;
  }

  /** A text with no match from `j` on leaves `find` empty-handed from `j`. */
  lemma {:induction false} FindFromNoneIs(s: string, pat: string, j: nat)
    requires j <= |s|
    requires forall i :: j <= i <= |s| ==> !MatchAt(s, pat, i)
    ensures FindFrom(s, pat, j).None?
    decreases |s| - j
  {
    if j < |s| {
      FindFromNoneIs(s, pat, j + 1);
    }
  }

  /** A match with no match before it is what `find` reports. */
  lemma FindIs(s: string, pat: string, p: nat)
    requires MatchAt(s, pat, p)
    requires forall i :: 0 <= i < p ==> !MatchAt(s, pat, i)
    ensures Find(s, pat) == Some(p)
  {
    FindFromIs(s, pat, 0, p);
  }

  lemma {:induction false} FindFromIs(s: string, pat: string, j: nat, p: nat)
    requires j <= p && MatchAt(s, pat, p)
    requires forall i :: j <= i < p ==> !MatchAt(s, pat, i)
    ensures FindFrom(s, pat, j) == Some(p)
    decreases p - j
  {
    if j < p {
      FindFromIs(s, pat, j + 1, p);
    }
  }

  // ---------------------------------------------------------------------
  // redact_sensitive

  const Redaction := "[REDACTED]"

  /** `str::find` on the rest of `s` from `j` is `FindFrom` at `j`, shifted. */
  lemma {:induction false} FindShift(s: string, pat: string, j: nat, k: nat)
    requires j + k <= |s|
    ensures FindFrom(s[j..], pat, k) == (match FindFrom(s, pat, j + k) case None => None case Some(i) => Some(i - j))
    decreases |s| - j - k
  {
    var rest := s[j..];
    assert MatchAt(rest, pat, k) == MatchAt(s, pat, j + k) by {
      if k + |pat| <= |rest| {
        assert rest[k..k + |pat|] == s[j + k..j + k + |pat|];
      }
    }
    if !MatchAt(s, pat, j + k) && j + k < |s| {
      FindShift(s, pat, j, k + 1);
    }
  }

  /** `str::replace`: every non-overlapping occurrence of `keyword`, from left
      to right, replaced by `rep`. */
  function Replace(s: string, keyword: string, rep: string): string
    requires keyword != []
  {
    ReplaceFrom(s, keyword, rep, 0)
  }

  /** The replacement applied to the rest of `s` from `from`. */
  function ReplaceFrom(s: string, keyword: string, rep: string, from: nat): string
    requires keyword != [] && from <= |s|
    decreases |s| - from
  {
    match FindFrom(s, keyword, from)
    case None => s[from..]
    case Some(i) => s[from..i] + rep + ReplaceFrom(s, keyword, rep, i + |keyword|)
  }

  /** Putting the keyword back where it was found gives the original text:
      the pieces in between are kept, in order. */
  lemma ReplaceWithItself(s: string, keyword: string)
    requires keyword != []
    ensures Replace(s, keyword, keyword) == s
  {
    ReplaceFromWithItself(s, keyword, 0);
    assert s[0..] == s;
  }

  lemma {:induction false} ReplaceFromWithItself(s: string, keyword: string, from: nat)
    requires keyword != [] && from <= |s|
    ensures ReplaceFrom(s, keyword, keyword, from) == s[from..]
    decreases |s| - from
  {
    match FindFrom(s, keyword, from)
    case None =>
    case Some(i) =>
      ReplaceFromWithItself(s, keyword, i + |keyword|);
      assert s[from..] == s[from..i] + s[i..i + |keyword|] + s[i + |keyword|..];
  }

  /** Text in front of the first occurrence of the keyword is kept; in
      particular a text without the keyword is returned unchanged. */
  lemma ReplaceKeepsPrefix(s: string, keyword: string, rep: string, n: nat)
    requires keyword != [] && n <= |s|
    requires forall i :: 0 <= i < n ==> !MatchAt(s, keyword, i)
    ensures n <= |Replace(s, keyword, rep)| && Replace(s, keyword, rep)[..n] == s[..n]
  {
    match FindFrom(s, keyword, 0)
    case None =>
    case Some(i) =>
      assert n <= i;
  }

  /** The characters of `s` that make up its first `min(10, len)` bytes, when
      that byte offset is a character boundary. */
  predicate PreviewDefined(s: string) {
    BoundaryIndex(s, Min(10, ByteLen(s))).Some?
  }

  function Preview(s: string): (p: string)
    requires PreviewDefined(s)
    ensures ByteLen(p) == Min(10, ByteLen(s)) && |p| <= |s| && p == s[..|p|]
  {
    s[..BoundaryIndex(s, Min(10, ByteLen(s))).value]
  }

  /** `find` in the rest of the text is `FindFrom` in the whole of it,
      shifted. */
  lemma FindInRest(t: string, keyword: string, lastEnd: nat, n: nat)
    requires lastEnd <= |t| && Find(t[lastEnd..], keyword) == Some(n)
    ensures FindFrom(t, keyword, lastEnd) == Some(lastEnd + n)
  {
    FindShift(t, keyword, lastEnd, 0);
  }

  /** Where the next occurrence is, `ReplaceFrom` keeps the text before it,
      puts `rep` in its place and goes on after it. */
  lemma ReplaceFromAt(t: string, keyword: string, rep: string, from: nat, i: nat)
    requires keyword != [] && from <= |t| && FindFrom(t, keyword, from) == Some(i)
    ensures from <= i && i + |keyword| <= |t|
    ensures ReplaceFrom(t, keyword, rep, from) == t[from..i] + rep + ReplaceFrom(t, keyword, rep, i + |keyword|)
  {
  }

  /** The loop invariant of `redact_sensitive` survives one round: the
      occurrence that `find` reports in the rest of the text is the next one
      replaced. `whole` is the text with every occurrence replaced. */
  lemma RedactRound(t: string, keyword: string, rep: string, lastEnd: nat, i: nat, result: string, whole: string)
    requires keyword != [] && lastEnd <= i <= |t| && Find(t[lastEnd..], keyword) == Some(i - lastEnd)
    requires whole == result + ReplaceFrom(t, keyword, rep, lastEnd)
    ensures i + |keyword| <= |t|
    ensures whole == result + t[lastEnd..i] + rep + ReplaceFrom(t, keyword, rep, i + |keyword|)
  {
    FindInRest(t, keyword, lastEnd, i - lastEnd);
    ReplaceFromAt(t, keyword, rep, lastEnd, i);
    Regroup(whole, result, ReplaceFrom(t, keyword, rep, lastEnd),
      t[lastEnd..i], rep, ReplaceFrom(t, keyword, rep, i + |keyword|));
  }

  lemma Prepended(whole: string, rest: string)
    requires whole == rest
    ensures whole == "" + rest
  {
  }

  lemma Regroup(whole: string, a: string, rest: string, b: string, c: string, d: string)
    requires whole == a + rest && rest == b + c + d
    ensures whole == a + b + c + d
  {
  }

  /** When `find` reports nothing in the rest, the rest is kept as it is. */
  lemma ReplaceFromLast(t: string, keyword: string, rep: string, lastEnd: nat)
    requires keyword != [] && lastEnd <= |t| && Find(t[lastEnd..], keyword).None?
    ensures ReplaceFrom(t, keyword, rep, lastEnd) == t[lastEnd..]
  {
    FindShift(t, keyword, lastEnd, 0);
  }

  /** The loop of `redact_sensitive`: every occurrence of the keyword, found
      with `find` in the rest of the text, is replaced by `[REDACTED]`. */
  method RedactAll(t: string, keyword: string) returns (result: string)
    requires keyword != []
    ensures result == Replace(t, keyword, Redaction)
  {
    var lastEnd := 0;
    result := "";
    var next := Find(t[lastEnd..], keyword);
    ghost var whole := Replace(t, keyword, Redaction);
    Prepended(whole, ReplaceFrom(t, keyword, Redaction, 0));
    while next.Some?
      invariant lastEnd <= |t|
      invariant next == Find(t[lastEnd..], keyword)
      invariant whole == result + ReplaceFrom(t, keyword, Redaction, lastEnd)
      decreases |t| - lastEnd
    {
      var absStart := lastEnd + next.value;
      RedactRound(t, keyword, Redaction, lastEnd, absStart, result, whole);
      result := result + t[lastEnd..absStart] + Redaction;
      assert whole == result + ReplaceFrom(t, keyword, Redaction, absStart + |keyword|);
      lastEnd := absStart + |keyword|;
      next := Find(t[lastEnd..], keyword);
    }
    ReplaceFromLast(t, keyword, Redaction, lastEnd);
    result := result + t[lastEnd..];
  }

  /** `redact_sensitive`. Rust panics when the first ten bytes end inside a
      character; that is the second precondition. */
  method RedactSensitive(text: Buffer, keyword: string) returns (preview: string)
    requires keyword != []
    requires PreviewDefined(Replace(text.text, keyword, Redaction))
    modifies text
    ensures text.text == Replace(old(text.text), keyword, Redaction)
    ensures preview == Preview(text.text)
  {
    var result := RedactAll(text.text, keyword);
    text.text := result;
    var cut := BoundaryIndex(result, Min(10, ByteLen(result)));
    preview := result[..cut.value];
  }

  // ---------------------------------------------------------------------
  // build_summary

  /** `truncate(max_len)` panics unless `max_len` falls on a character boundary. */
  predicate CanShorten(body: string, maxLen: nat) {
    ByteLen(body) <= maxLen || BoundaryIndex(body, maxLen).Some?
  }

  /** The body after the length check: cut to `maxLen` bytes and marked with
      "..." when it was longer, otherwise unchanged. */
  function Shortened(body: string, maxLen: nat): (r: string)
    requires CanShorten(body, maxLen)
  {
    if ByteLen(body) > maxLen then body[..BoundaryIndex(body, maxLen).value] + "..." else body
  }

  /** The body `build_summary` leaves behind. */
  function Summary(body: string, maxLen: nat): string
    requires CanShorten(body, maxLen)
  {
    TagAppended(Shortened(body, maxLen), "[SUMMARY]")
  }

  /** A long body keeps exactly its first `maxLen` bytes, followed by
      "... [SUMMARY]". */
  lemma SummaryOfLongBody(body: string, maxLen: nat)
    requires ByteLen(body) > maxLen && BoundaryIndex(body, maxLen).Some?
    ensures BoundaryIndex(body, maxLen).value < |body|
    ensures ByteLen(body[..BoundaryIndex(body, maxLen).value]) == maxLen
    ensures Summary(body, maxLen) == body[..BoundaryIndex(body, maxLen).value] + "... [SUMMARY]"
  {
    var k := BoundaryIndex(body, maxLen).value;
    assert ByteLen(body[..k]) == maxLen;
    assert body[..|body|] == body;
    assert k < |body|;
    assert Shortened(body, maxLen) == body[..k] + "...";
    MarkedTail(body[..k]);
  }

  lemma MarkedTail(kept: string)
    ensures TagAppended(kept + "...", "[SUMMARY]") == kept + "... [SUMMARY]"
  {
    assert kept + "..." + " " + "[SUMMARY]" == kept + "... [SUMMARY]";
  }

  /** A body within the limit is kept whole and followed by " [SUMMARY]", or
      becomes "[SUMMARY]" when empty. */
  lemma SummaryOfShortBody(body: string, maxLen: nat)
    requires ByteLen(body) <= maxLen
    ensures Summary(body, maxLen) == if body == [] then "[SUMMARY]" else body + " [SUMMARY]"
  {
    assert body + " " + "[SUMMARY]" == body + " [SUMMARY]";
  }

  /** `build_summary`: the word count of the original body, the domain of the
      title, and the body rewritten to its summary. */
  method BuildSummary(title: string, body: Buffer, maxLen: nat) returns (wordCount: nat, preview: string)
    requires CanShorten(body.text, maxLen)
    modifies body
    ensures wordCount == CountWords(old(body.text))
    ensures preview == ExtractDomain(title)
    ensures body.text == Summary(old(body.text), maxLen)
  {
    wordCount := CountWords(body.text);
    if ByteLen(body.text) > maxLen {
      body.text := body.text[..BoundaryIndex(body.text, maxLen).value];
      body.text := body.text + "...";
    }
    AppendTag(body, "[SUMMARY]");
    preview := ExtractDomain(title);
  }

  // ---------------------------------------------------------------------
  // find_intersection and _get_intersection

  predicate Sorted(b: seq<int>) {
    forall i, j :: 0 <= i < j < |b| ==> b[i] <= b[j]
  }

  predicate StrictlyIncreasing(b: seq<int>) {
    forall i, j :: 0 <= i < j < |b| ==> b[i] < b[j]
  }

  /** `a.iter().position(|n| b.binary_search(n).is_ok())`: the first index
      of `a` whose element occurs in `b`. */
  function Position(a: seq<int>, b: seq<int>): (r: Option<nat>)
    ensures r.Some? ==> r.value < |a| && a[r.value] in b && forall k :: 0 <= k < r.value ==> a[k] !in b
    ensures r.None? ==> forall k :: 0 <= k < |a| ==> a[k] !in b
  {
    PositionFrom(a, b, 0)
  }

  function PositionFrom(a: seq<int>, b: seq<int>, i: nat): (r: Option<nat>)
    requires i <= |a|
    ensures r.Some? ==> i <= r.value < |a| && a[r.value] in b && forall k :: i <= k < r.value ==> a[k] !in b
    ensures r.None? ==> forall k :: i <= k < |a| ==> a[k] !in b
    decreases |a| - i
  {
    if i == |a| then None
    else if a[i] in b then Some(i)
    else PositionFrom(a, b, i + 1)
  }

  /** The end of the run of elements of `b` in `a` that begins at `i`. */
  function RunEndIn(a: seq<int>, b: seq<int>, i: nat): (e: nat)
    requires i <= |a|
    ensures i <= e <= |a|
    ensures forall k :: i <= k < e ==> a[k] in b
    ensures e == |a| || a[e] !in b
    decreases |a| - i
  {
    if i == |a| || a[i] !in b then i else RunEndIn(a, b, i + 1)
  }

  /** The run end is the first index at or after `i` whose element is not in `b`. */
  lemma {:induction false} RunEndInUnique(a: seq<int>, b: seq<int>, i: nat, e: nat)
    requires i <= e <= |a|
    requires forall k :: i <= k < e ==> a[k] in b
    requires e == |a| || a[e] !in b
    ensures RunEndIn(a, b, i) == e
    decreases e - i
  {
    if i < e {
      RunEndInUnique(a, b, i + 1, e);
    }
  }

  /** What `find_intersection` returns: the slice of `a` that starts at the
      first element found in `b` and continues while the elements are in `b`;
      empty when no element of `a` is in `b`. */
  function Intersection(a: seq<int>, b: seq<int>): (r: seq<int>)
    ensures r == [] <==> forall k :: 0 <= k < |a| ==> a[k] !in b
    ensures r != [] ==>
      var s := Position(a, b).value;
      s + |r| <= |a| && r == a[s..s + |r|] &&
      (forall k :: 0 <= k < |r| ==> r[k] in b) &&
      (s + |r| == |a| || a[s + |r|] !in b)
  {
    if a == [] || b == [] then []
    else
      match Position(a, b)
      case None => []
      case Some(s) =>
        var e := RunEndIn(a, b, s + 1);
        RunEndInUnique(a, b, s, e);
        a[s..e]
  }

  /** `find_intersection`. Rust's `binary_search` is only meaningful on a
      sorted slice; on one, finding an element is membership. */
  method FindIntersection(a: seq<int>, b: seq<int>) returns (r: seq<int>)
    requires Sorted(b)
    ensures r == Intersection(a, b)
  {
    if |a| == 0 || |b| == 0 {
      return [];
    }
    var found := Position(a, b);
    if found.None? {
      return [];
    }
    var start := found.value;
    var end := start + 1;
    for i := start + 1 to |a|
      invariant end == i
      invariant forall k :: start + 1 <= k < end ==> a[k] in b
    {
      if a[i] in b {
        end := i + 1;
      } else {
        break;
      }
    }
    RunEndInUnique(a, b, start + 1, end);
    return a[start..end];
  }

  /** `_get_intersection`, a two-pointer walk over `a` and `b`. Whatever the
      inputs, it returns a contiguous slice of `a` whose elements all occur
      in `b`; on strictly increasing inputs it returns what
      `find_intersection` does. */
  method GetIntersection(a: seq<int>, b: seq<int>) returns (r: seq<int>, ghost lo: nat)
    ensures lo + |r| <= |a| && r == a[lo..lo + |r|]
    ensures forall k :: 0 <= k < |r| ==> r[k] in b
    ensures StrictlyIncreasing(a) && StrictlyIncreasing(b) ==> r == Intersection(a, b)
  {
    if |a| == 0 || |b| == 0 {
      return [], 0;
    }
    ghost var sorted := StrictlyIncreasing(a) && StrictlyIncreasing(b);
    var i, j, start := 0, 0, 0;
    while i < |a| && j < |b|
      invariant i <= |a| && j <= |b| && start <= i
      invariant start > 0 ==> forall k :: start - 1 <= k < i ==> a[k] in b
      invariant sorted && i < |a| ==> forall k :: 0 <= k < j ==> b[k] < a[i]
      invariant sorted && start == 0 ==> forall k :: 0 <= k < i ==> a[k] !in b
      invariant sorted && start > 0 ==> Position(a, b) == Some(start - 1)
      decreases |a| - i + |b| - j
    {
      if a[i] == b[j] {
        if start == 0 {
          start := i + 1;
        }
        i, j := i + 1, j + 1;
      } else if a[i] < b[j] {
        if start > 0 {
          if sorted {
            NotInAbove(a, b, i, j);
            RunIsIntersection(a, b, start - 1, i);
          }
          return a[start - 1..i], start - 1;
        }
        if sorted {
          NotInAbove(a, b, i, j);
        }
        i := i + 1;
      } else {
        j := j + 1;
      }
    }
    if start == 0 {
      if sorted && i < |a| {
        NoneAbove(a, b, i);
      }
      return [], 0;
    }
    if sorted {
      if i < |a| {
        NotInAbove(a, b, i, j);
      }
      RunIsIntersection(a, b, start - 1, i);
    }
    return a[start - 1..i], start - 1;
  }

  /** A maximal run that starts at the first element of `a` found in `b` is
      the intersection. */
  lemma RunIsIntersection(a: seq<int>, b: seq<int>, s: nat, e: nat)
    requires s < e <= |a| && Position(a, b) == Some(s)
    requires forall k :: s <= k < e ==> a[k] in b
    requires e == |a| || a[e] !in b
    ensures Intersection(a, b) == a[s..e]
  {
    RunEndInUnique(a, b, s + 1, e);
  }

  /** On a strictly increasing `b`, an element above `b[..j]` and below
      `b[j]` (or above all of `b`) is not in `b`. */
  lemma NotInAbove(a: seq<int>, b: seq<int>, i: nat, j: nat)
    requires StrictlyIncreasing(b) && i < |a| && j <= |b|
    requires forall k :: 0 <= k < j ==> b[k] < a[i]
    requires j == |b| || a[i] < b[j]
    ensures a[i] !in b
  {
    forall k | 0 <= k < |b|
      ensures b[k] != a[i]
    {
      if j < |b| && j < k {
        assert b[j] < b[k];
      }
    }
  }

  /** When every element of `b` is below `a[i]`, nothing from `a[i]` on is in
      `b` (for strictly increasing `a`). */
  lemma NoneAbove(a: seq<int>, b: seq<int>, i: nat)
    requires StrictlyIncreasing(a) && i < |a|
    requires forall k :: 0 <= k < |b| ==> b[k] < a[i]
    ensures forall k :: i <= k < |a| ==> a[k] !in b
  {
    forall k | i <= k < |a|
      ensures a[k] !in b
    {
      if k > i {
        assert a[i] < a[k];
      }
    }
  }

  /** The first index found in `b` is the one `Position` reports. */
  lemma PositionIs(a: seq<int>, b: seq<int>, s: nat)
    requires s < |a| && a[s] in b
    requires forall k :: 0 <= k < s ==> a[k] !in b
    ensures Position(a, b) == Some(s)
  {
    PositionFromIs(a, b, 0, s);
  }

  lemma {:induction false} PositionFromIs(a: seq<int>, b: seq<int>, i: nat, s: nat)
    requires i <= s < |a| && a[s] in b
    requires forall k :: i <= k < s ==> a[k] !in b
    ensures PositionFrom(a, b, i) == Some(s)
    decreases s - i
  {
    if i < s {
      PositionFromIs(a, b, i + 1, s);
    }
  }
}
