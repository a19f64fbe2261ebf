/** The record helpers of `rust-struct/src/main.rs`: books with copies and
    tags, and a library that is the sequence of its books. A `Book` is a
    class because `add_tag` changes its tags in place; the other helpers only
    read books. */
module Library {
  import opened Wrappers
  import opened Seqs

  /** Rust's `u16` and `u32`. */
  type U16 = y: int | 0 <= y < 0x1_0000
  type U32 = n: int | 0 <= n < 0x1_0000_0000

  datatype Author = Author(name: string)

  /** A copy: its number and whether it is on the shelf. */
  type Copy = (U32, bool)

  class Book {
    var title: string
    var year: U16
    var author: Author
    var tags: seq<string>
    var copies: seq<Copy>

    constructor (title: string, year: U16, author: Author, tags: seq<string>, copies: seq<Copy>)
      ensures this.title == title && this.year == year && this.author == author
      ensures this.tags == tags && this.copies == copies
    {
      this.title := title;
      this.year := year;
      this.author := author;
      this.tags := tags;
      this.copies := copies;
    }
  }

  // ---------------------------------------------------------------------
  // count_available_copies

  predicate IsAvailable(c: Copy) {
    c.1
  }

  /** The number of copies on the shelf. */
  function Available(copies: seq<Copy>): nat {
    |Filter(copies, IsAvailable)|
  }

  /** `count_available_copies`. */
  function CountAvailableCopies(book: Book): (n: nat)
    reads book
    ensures n <= |book.copies|
    ensures n == Available(book.copies)
  {
    Available(book.copies)
  }

  /** No copy is available exactly when the count is zero, and every copy is
      exactly when the count is the number of copies. */
  lemma AvailableExtremes(copies: seq<Copy>)
    ensures Available(copies) == 0 <==> forall i :: 0 <= i < |copies| ==> !copies[i].1
    ensures Available(copies) == |copies| <==> forall i :: 0 <= i < |copies| ==> copies[i].1
  {
    FilterAll(copies, IsAvailable);
    if Available(copies) == |copies| {
      FilterFull(copies, IsAvailable);
    }
    if Available(copies) != 0 {
      var c := Filter(copies, IsAvailable)[0];
      assert c.1 && c in copies;
    }
  }

  /** A filter that keeps as many elements as it was given keeps all of them. */
  lemma {:induction false} FilterFull<T>(s: seq<T>, p: T -> bool)
    requires |Filter(s, p)| == |s|
    ensures Filter(s, p) == s
  {
    if s != [] {
      assert |Filter(s[1..], p)| <= |s[1..]|;
      FilterFull(s[1..], p);
    }
  }

  /** Counting over two lists of copies adds up. */
  lemma AvailableAppend(x: seq<Copy>, y: seq<Copy>)
    ensures Available(x + y) == Available(x) + Available(y)
  {
    FilterAppend(x, y, IsAvailable);
  }

  // ---------------------------------------------------------------------
  // find_books_by_author

  /** How many positions of the library hold a book by that author: a book
      that appears twice is counted twice. */
  function CountBy(library: seq<Book>, name: string): (n: nat)
    reads set b | b in library
    ensures n <= |library|
    ensures n == 0 <==> forall i :: 0 <= i < |library| ==> library[i].author.name != name
  {
    if library == [] then 0
    else (if library[0].author.name == name then 1 else 0) + CountBy(library[1..], name)
  }

  /** `find_books_by_author`: the books of the library whose author has the
      given name, in library order. */
  function BooksBy(library: seq<Book>, name: string): (r: seq<Book>)
    reads set b | b in library
    ensures IsSubsequence(r, library)
    ensures forall i :: 0 <= i < |r| ==> r[i].author.name == name
    ensures forall i :: 0 <= i < |library| && library[i].author.name == name ==> library[i] in r
    ensures |r| == CountBy(library, name)
  {
    if library == [] then []
    else
      var rest := BooksBy(library[1..], name);
      if library[0].author.name == name then [library[0]] + rest else rest
  }

  /** A library made of two shelves is searched shelf by shelf. */
  lemma {:induction false} BooksByAppend(x: seq<Book>, y: seq<Book>, name: string)
    ensures BooksBy(x + y, name) == BooksBy(x, name) + BooksBy(y, name)
  {
    if x == [] {
      assert x + y == y;
    } else {
      assert (x + y)[1..] == x[1..] + y;
      BooksByAppend(x[1..], y, name);
    }
  }

  /** Searching the result again by the same name finds all of it. */
  lemma {:induction false} BooksByIdempotent(library: seq<Book>, name: string)
    ensures BooksBy(BooksBy(library, name), name) == BooksBy(library, name)
  {
    if library != [] {
      BooksByIdempotent(library[1..], name);
    }
  }

  // ---------------------------------------------------------------------
  // oldest_book

  /** Where `min_by_key(|book| book.year)` stops: the first book of least
      year, or `None` for an empty library. */
  function OldestIndex(library: seq<Book>): (r: Option<nat>)
    reads set b | b in library
    ensures r.None? <==> library == []
    ensures r.Some? ==> r.value < |library|
    ensures r.Some? ==> forall k :: 0 <= k < |library| ==> library[r.value].year <= library[k].year
    ensures r.Some? ==> forall k :: 0 <= k < r.value ==> library[k].year > library[r.value].year
  {
    if library == [] then None else Some(OldestFrom(library, 1, 0))
  }

  /** The scan of `min_by_key`: `best` is the first least-year book of
      `library[..i]`, and it is replaced only by a strictly older one. */
  function OldestFrom(library: seq<Book>, i: nat, best: nat): (r: nat)
    reads set b | b in library
    requires best < i <= |library|
    requires forall k :: 0 <= k < i ==> library[best].year <= library[k].year
    requires forall k :: 0 <= k < best ==> library[k].year > library[best].year
    ensures r < |library|
    ensures forall k :: 0 <= k < |library| ==> library[r].year <= library[k].year
    ensures forall k :: 0 <= k < r ==> library[k].year > library[r].year
    decreases |library| - i
  {
    if i == |library| then best
    else if library[i].year < library[best].year then OldestFrom(library, i + 1, i)
    else OldestFrom(library, i + 1, best)
  }

  /** `oldest_book`: a book of least year, and among several of that year
      the first in the library. */
  function OldestBook(library: seq<Book>): (r: Option<Book>)
    reads set b | b in library
    ensures r.None? <==> library == []
    ensures r.Some? ==> r.value in library && forall k :: 0 <= k < |library| ==> r.value.year <= library[k].year
    ensures r.Some? ==> exists i :: 0 <= i < |library| && library[i] == r.value &&
                                    forall k :: 0 <= k < i ==> library[k].year > r.value.year
  {
    match OldestIndex(library)
    case None => None
    case Some(i) => Some(library[i])
  }

  /** Any index with the two properties of `OldestIndex` is the one it
      returns: the oldest book is unique once ties go to the first. */
  lemma OldestIndexUnique(library: seq<Book>, i: nat)
    requires i < |library|
    requires forall k :: 0 <= k < |library| ==> library[i].year <= library[k].year
    requires forall k :: 0 <= k < i ==> library[k].year > library[i].year
    ensures OldestIndex(library) == Some(i)
  {
    var j := OldestIndex(library).value;
    assert library[j].year <= library[i].year && library[i].year <= library[j].year;
    assert !(j < i) && !(i < j);
  }

  // ---------------------------------------------------------------------
  // add_tag

  /** The tags after `add_tag`: the tag is appended when it is absent. */
  function TagAdded(tags: seq<string>, tag: string): (r: seq<string>)
    ensures tag in r
    ensures tag in tags ==> r == tags
    ensures tag !in tags ==> r == tags + [tag]
  {
    if tag in tags then tags else tags + [tag]
  }

  predicate NoDuplicates(s: seq<string>) {
    forall i, j :: 0 <= i < j < |s| ==> s[i] != s[j]
  }

  /** Adding the same tag twice is adding it once. */
  lemma TagAddedIdempotent(tags: seq<string>, tag: string)
    ensures TagAdded(TagAdded(tags, tag), tag) == TagAdded(tags, tag)
  {
  }

  /** `add_tag` never introduces a duplicate tag, and loses none. */
  lemma TagAddedNoDuplicates(tags: seq<string>, tag: string)
    requires NoDuplicates(tags)
    ensures NoDuplicates(TagAdded(tags, tag))
    ensures forall t :: t in TagAdded(tags, tag) <==> t in tags || t == tag
  {
    if tag !in tags {
      var r := tags + [tag];
      forall i, j | 0 <= i < j < |r|
        ensures r[i] != r[j]
      {
        if j == |tags| {
          assert r[i] == tags[i];
        }
      }
    }
  }

  /** `add_tag`. Nothing of the book but its tags changes. */
  method AddTag(book: Book, tag: string)
    modifies book
    ensures book.tags == TagAdded(old(book.tags), tag)
    ensures book.title == old(book.title) && book.year == old(book.year)
    ensures book.author == old(book.author) && book.copies == old(book.copies)
  {
    if tag !in book.tags {
      book.tags := book.tags + [tag];
    }
  }

  // ---------------------------------------------------------------------
  // The assertions of `main`

  /** Each author of `main` has exactly one of its two books. */
  lemma SearchExample(book1: Book, book2: Book)
    requires book1.author.name == "Лем" && book2.author.name == "Стругацкие"
    ensures BooksBy([book1, book2], "Лем") == [book1]
    ensures BooksBy([book1, book2], "Стругацкие") == [book2]
  {
    var library := [book1, book2];
    assert library[1..] == [book2] && library[1..][1..] == [];
  }

  lemma CopiesExample()
    ensures Available([(1, true), (2, false), (3, true)]) == 2
  {
    var copies: seq<Copy> := [(1, true), (2, false), (3, true)];
    assert copies[1..] == [(2, false), (3, true)] && copies[1..][1..] == [(3, true)];
  }

  /** "classic" is appended, "sci-fi" is already there. */
  lemma TagsExample()
    ensures TagAdded(TagAdded(["sci-fi"], "classic"), "sci-fi") == ["sci-fi", "classic"]
  {
    assert "classic" != "sci-fi";
    assert "sci-fi" in ["sci-fi"] + ["classic"];
  }

  /** The two books of `main`, `add_tag` applied as there, and the checks
      on the library they make up. */
  method LibraryExample() returns (lemTitles: seq<string>, strugatskyTitles: seq<string>, oldest: string, available: nat, tags: seq<string>)
    ensures lemTitles == ["Солярис"] && strugatskyTitles == ["Пикник на обочине"]
    ensures oldest == "Солярис" && available == 2
    ensures tags == ["sci-fi", "classic"]
  {
    var book1 := new Book("Солярис", 1961, Author("Лем"), ["sci-fi"], [(1, true), (2, false), (3, true)]);
    TagsExample();
    AddTag(book1, "classic");
    AddTag(book1, "sci-fi");
    tags := book1.tags;
    var book2 := new Book("Пикник на обочине", 1972, Author("Стругацкие"), ["sci-fi", "classic"], [(10, false), (11, false)]);
    var library := [book1, book2];

    SearchExample(book1, book2);
    var lem := BooksBy(library, "Лем");
    lemTitles := [lem[0].title];
    var strugatsky := BooksBy(library, "Стругацкие");
    strugatskyTitles := [strugatsky[0].title];

    OldestIndexUnique(library, 0);
    oldest := OldestBook(library).value.title;

    CopiesExample();
    available := CountAvailableCopies(library[0]);
  }
}
