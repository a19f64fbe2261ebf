/** The assertions in `main` of `rust-refs-pointers/src/main.rs`, stated
    as lemmas about the model and, for the two calls that rewrite `content`,
    as a method that makes the same calls in the same order. */
module RefsExamples {
  import opened Wrappers
  import opened Chars
  import opened RefsPointers

  lemma CountWordsExamples()
    ensures CountWords("hello world") == 2
    ensures CountWords("  Secret password is 12345  ") == 4
  {
    assert WordStartsBelow("hello world", 11) == 2;
    SecretWords();
  }

  lemma SecretWords()
    ensures CountWords("  Secret password is 12345  ") == 4
  {
    assert CountWords("  Secret") == 1 by {
      assert WordStartsBelow("  Secret", 8) == 1;
    }
    PasswordWords();
    CountWordsSplit("  Secret", ' ', "password is 12345  ");
    assert "  Secret" + [' '] + "password is 12345  " == "  Secret password is 12345  ";
  }

  lemma PasswordWords()
    ensures CountWords("password is 12345  ") == 3
  {
    assert CountWords("password") == 1 by {
      assert WordStartsBelow("password", 8) == 1;
    }
    assert CountWords("is 12345  ") == 2 by {
      assert WordStartsBelow("is 12345  ", 10) == 2;
    }
    CountWordsSplit("password", ' ', "is 12345  ");
    assert "password" + [' '] + "is 12345  " == "password is 12345  ";
  }

  lemma DomainExample()
    ensures ExtractDomain("https://example.com/article") == "example.com"
  {
    var url := "https://example.com/article";
    assert url[5..8] == "://" by {
      assert url[5] == ':' && url[6] == '/' && url[7] == '/';
    }
    forall i | 0 <= i < 5
      ensures !MatchAt(url, "://", i)
    {
      assert url[i..i + 3][0] == url[i];
    }
    FindIs(url, "://", 5);
    assert url[8..19] == "example.com";
    ExtractDomainUnique(url, "example.com");
  }

  lemma IntersectionOfOverlap()
    ensures Intersection([1, 2, 3, 4, 5], [3, 4, 5, 6, 7]) == [3, 4, 5]
  {
    var a, b := [1, 2, 3, 4, 5], [3, 4, 5, 6, 7];
    assert a[0] !in b && a[1] !in b && a[2] in b && a[3] in b && a[4] in b;
    PositionIs(a, b, 2);
    RunIsIntersection(a, b, 2, 5);
    assert a[2..5] == [3, 4, 5];
  }

  lemma IntersectionOfLastElement()
    ensures Intersection([10, 20, 30], [25, 30, 35]) == [30]
  {
    var a, b := [10, 20, 30], [25, 30, 35];
    assert a[0] !in b && a[1] !in b && a[2] in b;
    PositionIs(a, b, 2);
    RunIsIntersection(a, b, 2, 3);
    assert a[2..3] == [30];
  }

  lemma IntersectionWithDuplicates()
    ensures Intersection([1, 1, 2, 2], [2, 2]) == [2, 2]
  {
    var a, b := [1, 1, 2, 2], [2, 2];
    assert a[0] !in b && a[1] !in b && a[2] in b && a[3] in b;
    PositionIs(a, b, 2);
    RunIsIntersection(a, b, 2, 4);
    assert a[2..4] == [2, 2];
  }

  lemma IntersectionStopsAtGap()
    ensures Intersection([1, 2, 60, 90], [2, 5, 90]) == [2]
  {
    var a, b := [1, 2, 60, 90], [2, 5, 90];
    assert a[0] !in b && a[1] in b && a[2] !in b;
    PositionIs(a, b, 1);
    RunIsIntersection(a, b, 1, 2);
    assert a[1..2] == [2];
  }

  lemma IntersectionOfEmpty()
    ensures Intersection([], [1, 2, 3, 4, 5]) == []
  {
  }

  lemma IntersectionOfTail()
    ensures Intersection([5, 10, 15, 20], [15, 20, 25]) == [15, 20]
  {
    var a, b := [5, 10, 15, 20], [15, 20, 25];
    assert a[0] !in b && a[1] !in b && a[2] in b && a[3] in b;
    PositionIs(a, b, 2);
    RunIsIntersection(a, b, 2, 4);
    assert a[2..4] == [15, 20];
  }

  const Url := "https://example.com/article"
  const Content := "  Secret password is 12345  "
  const Summarised := "  Secret passwo... [SUMMARY]"
  const Redacted := "[REDACTED] passwo... [SUMMARY]"

  lemma ContentIsAscii()
    ensures IsAscii(Content) && ByteLen(Content) == 28 && BoundaryIndex(Content, 15) == Some(15)
  {
    assert IsAscii(Content);
    ByteLenAscii(Content);
    BoundaryIndexAscii(Content, 15);
  }

  /** `build_summary(url, &mut content, 15)` cuts the 28-byte content after
      15 bytes. */
  lemma SummaryExample()
    ensures CanShorten(Content, 15) && Summary(Content, 15) == Summarised
    ensures Summarised[|Summarised| - 13..] == "... [SUMMARY]"
  {
    ContentIsAscii();
    SummaryOfLongBody(Content, 15);
    SummarisedHead();
  }

  lemma SummarisedHead()
    ensures Content[..15] == "  Secret passwo"
    ensures Summarised == "  Secret passwo" + "... [SUMMARY]"
  {
  }

  lemma SummarisedSplit()
    ensures Summarised == "  Secret" + " passwo... [SUMMARY]"
    ensures Redacted == Redaction + " passwo... [SUMMARY]"
  {
  }

  /** "  Secret" opens the summary and occurs nowhere else in it. */
  lemma KeywordOnlyAtStart()
    ensures FindFrom(Summarised, "  Secret", 0) == Some(0)
    ensures FindFrom(Summarised, "  Secret", 8).None?
  {
    var s, kw := Summarised, "  Secret";
    assert MatchAt(s, kw, 0);
    FindFromIs(s, kw, 0, 0);
    forall i | 8 <= i <= |s|
      ensures !MatchAt(s, kw, i)
    {
      if i + 8 <= |s| {
        assert s[i..i + 8][0] == s[i] && s[i..i + 8][1] == s[i + 1];
      }
    }
    FindFromNoneIs(s, kw, 8);
  }

  /** `redact_sensitive(&mut content, "  Secret")` on the summary replaces
      its head, and the preview is exactly the marker. */
  lemma RedactExample()
    ensures Replace(Summarised, "  Secret", Redaction) == Redacted
    ensures PreviewDefined(Redacted) && Preview(Redacted) == "[REDACTED]"
  {
    var s, kw := Summarised, "  Secret";
    KeywordOnlyAtStart();
    SummarisedSplit();
    var tail := " passwo... [SUMMARY]";
    assert s[8..] == tail;
    assert Replace(s, kw, Redaction) == s[0..0] + Redaction + tail;
    RedactedPreview();
  }

  lemma RedactedPreview()
    ensures PreviewDefined(Redacted) && Preview(Redacted) == "[REDACTED]"
  {
    assert IsAscii(Redacted);
    ByteLenAscii(Redacted);
    BoundaryIndexAscii(Redacted, 10);
    assert Redacted[..10] == "[REDACTED]" by {
      SummarisedSplit();
    }
  }

  /** The calls of `main` that go through `content`, in their order. */
  method SummaryThenRedact() returns (words: nat, domain: string, preview: string)
    ensures words == 4 && domain == "example.com" && preview == "[REDACTED]"
  {
    var content := new Buffer(Content);
    SummaryExample();
    words, domain := BuildSummary(Url, content, 15);
    CountWordsExamples();
    DomainExample();
    assert content.text == Summarised;
    RedactExample();
    preview := RedactSensitive(content, "  Secret");
  }
}
