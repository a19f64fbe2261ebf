/** The pieces of Rust's `str` API that the CSV table uses: `split` on a
    character, joining with a separator, `lines` and `trim`. */
module Text {
  import opened Wrappers
  import opened Chars

  // ---------------------------------------------------------------------
  // split and join

  /** `str::split(sep)`: the pieces between the separators, always at least
      one (possibly empty). */
  function Split(s: string, sep: char): (r: seq<string>)
    ensures |r| >= 1
    ensures forall i :: 0 <= i < |r| ==> sep !in r[i]
  {
    if s == [] then [""]
    else
      var rest := Split(s[1..], sep);
      if s[0] == sep then [""] + rest else [[s[0]] + rest[0]] + rest[1..]
  }

  /** A piece without the separator is not split. */
  lemma {:induction false} SplitNone(s: string, sep: char)
    requires sep !in s
    ensures Split(s, sep) == [s]
  {
    if s != [] {
      assert s[0] in s && forall c :: c in s[1..] ==> c in s;
      SplitNone(s[1..], sep);
      assert [s[0]] + s[1..] == s;
    }
  }

  /** Splitting at a separator splits the two sides independently. */
  lemma {:induction false} SplitAppend(x: string, sep: char, y: string)
    ensures Split(x + [sep] + y, sep) == Split(x, sep) + Split(y, sep)
  {
    if x == [] {
      assert x + [sep] + y == [sep] + y;
      assert ([sep] + y)[1..] == y;
    } else {
      assert (x + [sep] + y)[1..] == x[1..] + [sep] + y;
      SplitAppend(x[1..], sep, y);
    }
  }

  /** `join(sep)` of a non-empty list of pieces. */
  function Join(xs: seq<string>, sep: char): string
    requires xs != []
  {
    if |xs| == 1 then xs[0] else Join(xs[..|xs| - 1], sep) + [sep] + xs[|xs| - 1]
  }

  /** Splitting what was joined gives the pieces back when none holds the
      separator. */
  lemma {:induction false} SplitJoin(xs: seq<string>, sep: char)
    requires xs != []
    requires forall i :: 0 <= i < |xs| ==> sep !in xs[i]
    ensures Split(Join(xs, sep), sep) == xs
  {
    var last := xs[|xs| - 1];
    SplitNone(last, sep);
    if |xs| > 1 {
      var init := xs[..|xs| - 1];
      SplitJoin(init, sep);
      SplitAppend(Join(init, sep), sep, last);
      assert init + [last] == xs;
    }
  }

  /** A joined text holds the separator only between pieces. */
  lemma {:induction false} JoinChars(xs: seq<string>, sep: char, c: char)
    requires xs != [] && c != sep
    requires forall i :: 0 <= i < |xs| ==> c !in xs[i]
    ensures c !in Join(xs, sep)
  {
    if |xs| > 1 {
      JoinChars(xs[..|xs| - 1], sep, c);
    }
  }

  // ---------------------------------------------------------------------
  // lines

  /** A line ending "\r\n" loses its '\r' as well. */
  function StripCr(line: string): string {
    if line != [] && line[|line| - 1] == '\r' then line[..|line| - 1] else line
  }

  /** `str::lines`: the pieces between the '\n's, each without a '\r'
      just before its '\n'; a last piece without '\n' is kept as it is,
      and a text that ends with '\n' (or is empty) has no empty last line. */
  function Lines(s: string): (r: seq<string>)
  {
    var ps := Split(s, '\n');
    var init := seq(|ps| - 1, i requires 0 <= i < |ps| - 1 => StripCr(ps[i]));
    if ps[|ps| - 1] == "" then init else init + [ps[|ps| - 1]]
  }

  /** The lines, each followed by '\n'. */
  function Terminated(ls: seq<string>): (t: string)
    ensures ls != [] ==> t == Join(ls, '\n') + "\n"
  {
    if ls == [] then "" else Join(ls, '\n') + "\n"
  }

  /** Lines written out one per '\n' are read back, when none holds '\n'
      and none ends in '\r'. */
  lemma LinesTerminated(ls: seq<string>)
    requires forall i :: 0 <= i < |ls| ==> '\n' !in ls[i] && StripCr(ls[i]) == ls[i]
    ensures Lines(Terminated(ls)) == ls
  {
    if ls != [] {
      SplitJoin(ls, '\n');
      SplitAppend(Join(ls, '\n'), '\n', "");
      assert Join(ls, '\n') + ['\n'] + "" == Terminated(ls);
      assert Split("", '\n') == [""];
    }
  }

  // ---------------------------------------------------------------------
  // trim

  /** Neither end of `s` is whitespace. */
  predicate Trimmed(s: string) {
    s == [] || (!IsWhitespace(s[0]) && !IsWhitespace(s[|s| - 1]))
  }

  /** `str::trim`: `s` without its leading and trailing whitespace. */
  function Trim(s: string): (r: string)
    ensures Trimmed(r)
    ensures var k := |s| - |TrimStart(s)|;
      k + |r| <= |s| && r == s[k..k + |r|] &&
      (forall i :: 0 <= i < k ==> IsWhitespace(s[i])) &&
      (forall i :: k + |r| <= i < |s| ==> IsWhitespace(s[i]))
  {
    TrimEnd(TrimStart(s))
  }

  function TrimStart(s: string): (r: string)
    ensures r == [] || !IsWhitespace(r[0])
    ensures |r| <= |s| && r == s[|s| - |r|..]
    ensures forall i :: 0 <= i < |s| - |r| ==> IsWhitespace(s[i])
  {
    if s != [] && IsWhitespace(s[0]) then TrimStart(s[1..]) else s
  }

  function TrimEnd(s: string): (r: string)
    ensures r == [] || !IsWhitespace(r[|r| - 1])
    ensures |r| <= |s| && r == s[..|r|]
    ensures forall i :: |r| <= i < |s| ==> IsWhitespace(s[i])
  {
    if s != [] && IsWhitespace(s[|s| - 1]) then TrimEnd(s[..|s| - 1]) else s
  }

  /** A text trimmed already is left as it is. */
  lemma TrimIdentity(s: string)
    requires Trimmed(s)
    ensures Trim(s) == s
  {
  }

  /** Trimming twice is trimming once. */
  lemma TrimIdempotent(s: string)
    ensures Trim(Trim(s)) == Trim(s)
  {
    TrimIdentity(Trim(s));
  }
}
