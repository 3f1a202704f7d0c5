/** The book-record pipeline of main.go: the ISBN gate, the response gate,
    the construction of the row that saveJson inserts, and the yes/no rules
    of the interactive loop. Everything the program reads from outside (the
    stored-copy count, the decoded Google Books response, the user's replies,
    the current time) is a parameter. */
module BookPopulator {
  import opened GoStrings
  import opened Dates
  import opened Models

  /** fetchData refuses an ISBN shorter than this many bytes. */
  const MinIsbnBytes := 10

  const Isbn13Kind := "ISBN_13"
  const Isbn10Kind := "ISBN_10"

  /** The separator of the stored Categories and Authors columns. */
  const ListSeparator := ','

  /** sanitizedIsbn: strings.TrimSpace. What is left is no longer than the
      input and neither starts nor ends with white space. */
  function SanitizedIsbn(src: string): (r: string)
    ensures |r| <= |src|
    ensures r == [] || (!IsSpace(r[0]) && !IsSpace(r[|r| - 1]))
  {
    TrimSpace(src)
  }

  /** The sanitized ISBN is the input with its leading and trailing white
      space cut off and nothing else changed, and sanitizing it again changes
      nothing. */
  lemma SanitizedIsbnTrims(src: string)
    ensures exists i, j :: IsTrimmedSliceOf(SanitizedIsbn(src), src, i, j)
    ensures SanitizedIsbn(SanitizedIsbn(src)) == SanitizedIsbn(src)
  {
    var t := TrimSpace(src);
    var i := |src| - |TrimLeft(src)|;
    TrimSpaceIsTrimmedSlice(src);
    TrimSpaceIdempotent(src);
    assert SanitizedIsbn(src) == t;
    assert IsTrimmedSliceOf(t, src, i, i + |t|);
  }

  /** The Identifier of the last entry whose Type is exactly `kind`, or ""
      when there is none: what the identifier loop of saveJson leaves in its
      variable for that kind. */
  function LastIdentifier(ids: seq<IndustryIdentifier>, kind: string): (r: string)
    ensures r == "" || exists k :: 0 <= k < |ids| && ids[k].kind == kind && ids[k].identifier == r
  {
    if ids == [] then ""
    else if ids[|ids| - 1].kind == kind then ids[|ids| - 1].identifier
    else LastIdentifier(ids[..|ids| - 1], kind)
  }

  /** When entry `k` is the last entry of type `kind`, its Identifier is the
      one kept: later entries of other types do not displace it. */
  lemma {:induction false} LastIdentifierIsLastMatch(ids: seq<IndustryIdentifier>, kind: string, k: int)
    requires 0 <= k < |ids| && ids[k].kind == kind
    requires forall j :: k < j < |ids| ==> ids[j].kind != kind
    ensures LastIdentifier(ids, kind) == ids[k].identifier
  {
    if k < |ids| - 1 {
      LastIdentifierIsLastMatch(ids[..|ids| - 1], kind, k);
    }
  }

  /** With no entry of type `kind` the field stays "". */
  lemma {:induction false} LastIdentifierNoMatch(ids: seq<IndustryIdentifier>, kind: string)
    requires forall j :: 0 <= j < |ids| ==> ids[j].kind != kind
    ensures LastIdentifier(ids, kind) == ""
  {
    if ids != [] {
      LastIdentifierNoMatch(ids[..|ids| - 1], kind);
    }
  }

  /** The entries of type `kind`, in their order. */
  function OfKind(ids: seq<IndustryIdentifier>, kind: string): (r: seq<IndustryIdentifier>)
    ensures forall j :: 0 <= j < |r| ==> r[j].kind == kind
  {
    if ids == [] then []
    else OfKind(ids[..|ids| - 1], kind) + (if ids[|ids| - 1].kind == kind then [ids[|ids| - 1]] else [])
  }

  /** Entries of any other type change neither ISBN field: removing them all
      leaves the kept Identifier as it was. */
  lemma {:induction false} LastIdentifierIgnoresOtherKinds(ids: seq<IndustryIdentifier>, kind: string)
    ensures LastIdentifier(ids, kind) == LastIdentifier(OfKind(ids, kind), kind)
  {
    if ids != [] {
      var init := ids[..|ids| - 1];
      LastIdentifierIgnoresOtherKinds(init, kind);
      if ids[|ids| - 1].kind == kind {
        assert OfKind(ids, kind) == OfKind(init, kind) + [ids[|ids| - 1]];
      } else {
        assert OfKind(ids, kind) == OfKind(init, kind);
      }
    }
  }

  /** The row saveJson builds from one volume, with `now` standing for
      time.Now().UTC(). */
  function BookDataOf(info: BookInfo, now: Timestamp): (row: BookData)
    ensures var ids := info.volumeInfo.industryIdentifiers;
      && (row.isbn13 == "" || exists k :: 0 <= k < |ids| && ids[k].kind == Isbn13Kind && ids[k].identifier == row.isbn13)
      && (row.isbn10 == "" || exists k :: 0 <= k < |ids| && ids[k].kind == Isbn10Kind && ids[k].identifier == row.isbn10)
    ensures row.publishedDate == now
         || (row.publishedDate.nanoOfDay == 0 && IsFormattable(row.publishedDate.date)
             && FormatDate(row.publishedDate.date) == info.volumeInfo.publishedDate)
    ensures row.source == ""
  {
    var v := info.volumeInfo;
    BookData(
      title := v.title,
      subtitle := v.subtitle,
      description := v.description,
      publisher := v.publisher,
      thumbnail := v.imageLinks.thumbnail,
      publishedDate := GetParsedTime(v.publishedDate, now),
      selfLink := info.selfLink,
      categories := Join(v.categories, [ListSeparator]),
      authors := Join(v.authors, [ListSeparator]),
      isbn10 := LastIdentifier(v.industryIdentifiers, Isbn10Kind),
      isbn13 := LastIdentifier(v.industryIdentifiers, Isbn13Kind),
      source := "")
  }

  /** The record-building part of saveJson: read Items[0] only, scan its
      identifiers keeping the last ISBN_13 and the last ISBN_10, join the
      category and author lists with ",", parse the publication date, and
      copy the remaining fields verbatim. Source is never assigned. The only
      caller has already read Items[0], so Items is not empty. */
  method SaveJson(source: Result, now: Timestamp) returns (item: BookData)
    requires |source.items| > 0
    ensures item == BookDataOf(source.items[0], now)
    ensures var v := source.items[0].volumeInfo;
      && item.title == v.title && item.subtitle == v.subtitle
      && item.description == v.description && item.publisher == v.publisher
      && item.thumbnail == v.imageLinks.thumbnail && item.selfLink == source.items[0].selfLink
      && item.isbn13 == LastIdentifier(v.industryIdentifiers, Isbn13Kind)
      && item.isbn10 == LastIdentifier(v.industryIdentifiers, Isbn10Kind)
      && item.categories == Join(v.categories, ",") && item.authors == Join(v.authors, ",")
      && item.publishedDate == GetParsedTime(v.publishedDate, now)
      && item.source == ""
  {
    var itemData := source.items[0].volumeInfo;
    var parsedDate := GetParsedTime(itemData.publishedDate, now);
    var tmpIsbn13 := "";
    var tmpIsbn10 := "";
    var ids := itemData.industryIdentifiers;
    for i := 0 to |ids|
      invariant tmpIsbn13 == LastIdentifier(ids[..i], Isbn13Kind)
      invariant tmpIsbn10 == LastIdentifier(ids[..i], Isbn10Kind)
    {
      assert ids[..i + 1][..i] == ids[..i];
      if ids[i].kind == Isbn13Kind {
        tmpIsbn13 := ids[i].identifier;
      }
      if ids[i].kind == Isbn10Kind {
        tmpIsbn10 := ids[i].identifier;
      }
    }
    assert ids[..|ids|] == ids;
    item := BookData(
      title := itemData.title,
      subtitle := itemData.subtitle,
      description := itemData.description,
      publisher := itemData.publisher,
      thumbnail := itemData.imageLinks.thumbnail,
      publishedDate := parsedDate,
      selfLink := source.items[0].selfLink,
      categories := Join(itemData.categories, ","),
      authors := Join(itemData.authors, ","),
      isbn10 := tmpIsbn10,
      isbn13 := tmpIsbn13,
      source := "");
  }

  /** A list is stored so that splitting on "," gives it back: it is
      non-empty and none of its elements holds a comma. */
  predicate IsRecoverableList(elems: seq<string>) {
    |elems| > 0 && forall k :: 0 <= k < |elems| ==> ListSeparator !in elems[k]
  }

  /** The stored Categories column gives its list back when split on ",",
      and so does the Authors column, each whenever its own list is
      recoverable. */
  lemma BookDataListsRecoverable(info: BookInfo, now: Timestamp)
    ensures IsRecoverableList(info.volumeInfo.categories) ==>
      Split(BookDataOf(info, now).categories, ListSeparator) == info.volumeInfo.categories
    ensures IsRecoverableList(info.volumeInfo.authors) ==>
      Split(BookDataOf(info, now).authors, ListSeparator) == info.volumeInfo.authors
  {
    if IsRecoverableList(info.volumeInfo.categories) {
      SplitJoin(info.volumeInfo.categories, ListSeparator);
    }
    if IsRecoverableList(info.volumeInfo.authors) {
      SplitJoin(info.volumeInfo.authors, ListSeparator);
    }
  }

  /** strings.ToLower(reply) == "n": the reply that declines. Exactly the
      replies "n" and "N" do; "no", " n" and "" do not. */
  function IsNo(reply: string): (b: bool)
    ensures b <==> reply == "n" || reply == "N"
  {
    LowersToN(reply);
    ToLower(reply) == "n"
  }

  /** What one call of fetchData comes to. */
  datatype FetchOutcome =
    | InvalidInput                    // the sanitized ISBN is too short; an error is returned
    | NoRecords                       // totalItems < 1
    | Declined(title: string)         // the user answered "n" to "Process this?"
    | Saved(row: BookData)            // saveJson builds this row and inserts it
    | IndexPanic                      // Items[0] on an empty Items list

  /** fetchData, from the sanitized ISBN to the row handed to the insert.
      `response` is what the Google Books query for the ISBN decodes to and
      `reply` is the answer to "Process this?". */
  function FetchData(isbn: string, response: Result, reply: string, now: Timestamp): (r: FetchOutcome)
    ensures r.InvalidInput? <==> Utf8Len(SanitizedIsbn(isbn)) < MinIsbnBytes
    ensures r.Saved? <==> !r.InvalidInput? && response.totalItems >= 1 && |response.items| > 0 && !IsNo(reply)
    ensures r.Saved? ==> r.row == BookDataOf(response.items[0], now)
    ensures r == NoRecords <==> !r.InvalidInput? && response.totalItems < 1
    ensures r == IndexPanic <==> !r.InvalidInput? && response.totalItems >= 1 && |response.items| == 0
    ensures r.Declined? <==> !r.InvalidInput? && response.totalItems >= 1 && |response.items| > 0 && IsNo(reply)
    ensures r.Declined? ==> r.title == response.items[0].volumeInfo.title
  {
    var sanitized := SanitizedIsbn(isbn);
    if Utf8Len(sanitized) < MinIsbnBytes then InvalidInput
    else if response.totalItems < 1 then NoRecords
    else if |response.items| == 0 then IndexPanic
    else
      var parsedTitle := response.items[0].volumeInfo.title;
      if !IsNo(reply) then Saved(BookDataOf(response.items[0], now))
      else Declined(parsedTitle)
  }

  /** An ISBN shorter than ten bytes after sanitizing is refused before any
      request is built: the outcome does not depend on the response, the
      reply or the time. */
  lemma ShortIsbnIssuesNoRequest(isbn: string, response1: Result, response2: Result, reply1: string, reply2: string, now1: Timestamp, now2: Timestamp)
    requires Utf8Len(SanitizedIsbn(isbn)) < MinIsbnBytes
    ensures FetchData(isbn, response1, reply1, now1) == InvalidInput
    ensures FetchData(isbn, response1, reply1, now1) == FetchData(isbn, response2, reply2, now2)
  {
  }

  /** White space around an ISBN is cut off and nothing else is. */
  lemma SanitizedIsbnOfPadded(before: string, isbn: string, after: string)
    requires forall k :: 0 <= k < |before| ==> IsSpace(before[k])
    requires forall k :: 0 <= k < |after| ==> IsSpace(after[k])
    requires isbn == [] || (!IsSpace(isbn[0]) && !IsSpace(isbn[|isbn| - 1]))
    ensures SanitizedIsbn(before + isbn + after) == isbn
  {
    var s := before + isbn + after;
    var i, j := |before|, |before| + |isbn|;
    assert s[i..j] == isbn;
    forall k | 0 <= k < i ensures IsSpace(s[k]) {
      assert s[k] == before[k];
    }
    forall k | j <= k < |s| ensures IsSpace(s[k]) {
      assert s[k] == after[k - j];
    }
    TrimmedSliceIsUnique(s, isbn, i, j);
  }

  /** The gate counts the bytes of what is left after trimming: surrounding
      white space never helps an ISBN pass, and for ASCII text the bytes are
      the characters. */
  lemma IsbnGateCountsBytes(before: string, isbn: string, after: string, response: Result, reply: string, now: Timestamp)
    requires forall k :: 0 <= k < |before| ==> IsSpace(before[k])
    requires forall k :: 0 <= k < |after| ==> IsSpace(after[k])
    requires isbn == [] || (!IsSpace(isbn[0]) && !IsSpace(isbn[|isbn| - 1]))
    ensures FetchData(before + isbn + after, response, reply, now) == InvalidInput <==> Utf8Len(isbn) < MinIsbnBytes
    ensures IsAscii(isbn) ==> (FetchData(before + isbn + after, response, reply, now) == InvalidInput <==> |isbn| < MinIsbnBytes)
  {
    SanitizedIsbnOfPadded(before, isbn, after);
    Utf8LenIsRuneCount(isbn);
  }

  /** Eight ASCII characters followed by one that takes two bytes make ten
      bytes: such an ISBN passes the gate although it has only nine
      characters. */
  lemma WideIsbnPasses(ascii: string, wide: char, response: Result, reply: string, now: Timestamp)
    requires |ascii| == 8 && IsAscii(ascii) && !IsSpace(ascii[0])
    requires '\U{80}' <= wide < '\U{800}' && !IsSpace(wide)
    ensures |ascii + [wide]| == 9
    ensures FetchData(ascii + [wide], response, reply, now) != InvalidInput
  {
    var isbn := ascii + [wide];
    SanitizedIsbnOfPadded([], isbn, []);
    assert [] + isbn + [] == isbn;
    assert Utf8Len([wide]) == 2;
    Utf8LenIsRuneCount(ascii);
    Utf8LenAppend(ascii, [wide]);
    assert Utf8Len(SanitizedIsbn(isbn)) == 10;
  }

  /** An ASCII ISBN without surrounding white space passes the gate as it
      is. */
  lemma PlainIsbnPasses(isbn: string)
    requires IsAscii(isbn) && |isbn| >= MinIsbnBytes && !IsSpace(isbn[0]) && !IsSpace(isbn[|isbn| - 1])
    ensures SanitizedIsbn(isbn) == isbn
    ensures Utf8Len(SanitizedIsbn(isbn)) >= MinIsbnBytes
  {
    SanitizedIsbnOfPadded("", isbn, "");
    assert "" + isbn + "" == isbn;
    Utf8LenIsRuneCount(isbn);
  }

  /** A well-formed ISBN whose query returns one volume, which carries that
      ISBN as its ISBN_13 and a valid publication date and which the user
      accepts, saves that volume's title, the ISBN as ISBN13, an empty ISBN10
      and the date at midnight. */
  lemma SingleVolumeScenario(isbn: string, title: string, d: Date, now: Timestamp)
    requires IsAscii(isbn) && |isbn| >= MinIsbnBytes && !IsSpace(isbn[0]) && !IsSpace(isbn[|isbn| - 1])
    requires IsFormattable(d)
    ensures
      var info := BookInfo("", VolumeInfo(title, "", [], "", FormatDate(d), "",
                                          [IndustryIdentifier(Isbn13Kind, isbn)], [], ImageLinks("")));
      var r := FetchData(isbn, Result(1, [info]), "", now);
      r.Saved? && r.row.title == title && r.row.isbn13 == isbn && r.row.isbn10 == ""
      && r.row.publishedDate == Midnight(d)
  {
    var ids := [IndustryIdentifier(Isbn13Kind, isbn)];
    PlainIsbnPasses(isbn);
    GetParsedTimeOfDate(d, now);
    assert ToLower("") == "";
    LastIdentifierIsLastMatch(ids, Isbn13Kind, 0);
    assert Isbn13Kind != Isbn10Kind by {
      assert Isbn13Kind[6] != Isbn10Kind[6];
    }
    LastIdentifierNoMatch(ids, Isbn10Kind);
  }

  /** When totalItems < 1 the result is "not found" and Items is never read:
      any Items list gives the same outcome. */
  lemma NoTotalItemsNeverReadsItems(isbn: string, total: int, items1: seq<BookInfo>, items2: seq<BookInfo>, reply: string, now: Timestamp)
    requires Utf8Len(SanitizedIsbn(isbn)) >= MinIsbnBytes && total < 1
    ensures FetchData(isbn, Result(total, items1), reply, now) == NoRecords
    ensures FetchData(isbn, Result(total, items1), reply, now) == FetchData(isbn, Result(total, items2), reply, now)
  {
  }

  /** Only the first item reaches the saved row: responses that agree on it
      save the same row, whatever follows it. */
  lemma SavedRowIgnoresLaterItems(isbn: string, total: int, first: BookInfo, rest1: seq<BookInfo>, rest2: seq<BookInfo>, reply: string, now: Timestamp)
    ensures FetchData(isbn, Result(total, [first] + rest1), reply, now) == FetchData(isbn, Result(total, [first] + rest2), reply, now)
  {
  }

  /** What one line typed at the " -> " prompt comes to. */
  datatype LineAction =
    | SkippedStored(title: string)    // already stored, and the user did not answer "n"
    | Fetched(outcome: FetchOutcome)  // fetchData ran

  /** `quit` holds when the program reads no further line after this one:
      either the line was "q", or fetchData panicked and, since nothing
      recovers the panic, the process ended. */
  datatype LineOutcome = LineOutcome(action: LineAction, quit: bool)

  /** One turn of main's loop for the line `text`. `storedCount` and
      `storedTitle` are what the lookup of `text` returned, `storedReply` the
      answer to "Skip? (default) or add?" (read only when a copy is stored),
      and `response`, `fetchReply` and `now` are fetchData's inputs. A line
      "q" is processed like any other and then ends the loop; a panic in
      fetchData ends the program in the middle of the turn. */
  function ProcessLine(text: string, storedCount: int, storedTitle: string, storedReply: string,
                       response: Result, fetchReply: string, now: Timestamp): (r: LineOutcome)
    ensures r.action.Fetched? <==> storedCount == 0 || storedReply == "n" || storedReply == "N"
    ensures !r.action.Fetched? ==> r.action == SkippedStored(storedTitle)
    ensures r.action.Fetched? ==> r.action.outcome == FetchData(text, response, fetchReply, now)
    ensures r.quit <==>
      (text == "q"
       || (r.action.Fetched? && Utf8Len(SanitizedIsbn(text)) >= MinIsbnBytes
           && response.totalItems >= 1 && response.items == []))
  {
    var action :=
      if storedCount != 0 then
        if IsNo(storedReply) then Fetched(FetchData(text, response, fetchReply, now))
        else SkippedStored(storedTitle)
      else Fetched(FetchData(text, response, fetchReply, now));
    LineOutcome(action, text == "q" || action == Fetched(IndexPanic))
  }

  /** A book already stored is fetched again exactly when the reply is "n"
      or "N"; on any other reply, the empty line included, it is skipped. */
  lemma StoredBookRefetchedOnlyOnNo(text: string, storedCount: int, storedTitle: string, storedReply: string,
                                    response: Result, fetchReply: string, now: Timestamp)
    requires storedCount != 0
    ensures ProcessLine(text, storedCount, storedTitle, storedReply, response, fetchReply, now).action.Fetched?
        <==> storedReply == "n" || storedReply == "N"
    ensures !(storedReply == "n" || storedReply == "N") ==>
        ProcessLine(text, storedCount, storedTitle, storedReply, response, fetchReply, now).action == SkippedStored(storedTitle)
  {
  }

  /** A book not yet stored is always fetched, and the stored-copy reply is
      never consulted. */
  lemma NewBookAlwaysFetched(text: string, storedTitle: string, storedReply1: string, storedReply2: string,
                             response: Result, fetchReply: string, now: Timestamp)
    ensures ProcessLine(text, 0, storedTitle, storedReply1, response, fetchReply, now)
        == ProcessLine(text, 0, storedTitle, storedReply2, response, fetchReply, now)
    ensures ProcessLine(text, 0, storedTitle, storedReply1, response, fetchReply, now).action
        == Fetched(FetchData(text, response, fetchReply, now))
  {
  }

  /** A fetched book is saved exactly when the reply to "Process this?" is
      neither "n" nor "N", once the ISBN and the response pass their gates. */
  lemma FetchedBookSavedUnlessNo(isbn: string, response: Result, reply: string, now: Timestamp)
    requires Utf8Len(SanitizedIsbn(isbn)) >= MinIsbnBytes && response.totalItems >= 1 && |response.items| > 0
    ensures FetchData(isbn, response, reply, now).Saved? <==> !(reply == "n" || reply == "N")
    ensures (reply == "n" || reply == "N") ==>
        FetchData(isbn, response, reply, now) == Declined(response.items[0].volumeInfo.title)
  {
  }

  /** The line "q" ends the loop and never saves anything: it is looked up
      and fetched like any line, and is refused as too short. */
  lemma QuitLineSavesNothing(storedCount: int, storedTitle: string, storedReply: string,
                             response: Result, fetchReply: string, now: Timestamp)
    ensures var r := ProcessLine("q", storedCount, storedTitle, storedReply, response, fetchReply, now);
      r.quit && (r.action.Fetched? ==> r.action.outcome == InvalidInput)
  {
    assert TrimLeft("q") == "q";
    assert TrimRight("q") == "q";
  }

  /** The corrected fetchData: a response that claims items but lists none is
      "not found" instead of indexing an empty list. */
  function GuardedFetchData(isbn: string, response: Result, reply: string, now: Timestamp): (r: FetchOutcome)
    ensures r != IndexPanic
    ensures r == NoRecords <==> Utf8Len(SanitizedIsbn(isbn)) >= MinIsbnBytes && (response.totalItems < 1 || response.items == [])
  {
    if Utf8Len(SanitizedIsbn(isbn)) >= MinIsbnBytes && response.items == [] then NoRecords
    else FetchData(isbn, response, reply, now)
  }

  /** The corrected fetchData does what fetchData does wherever fetchData
      does not panic. */
  lemma GuardedFetchDataAgrees(isbn: string, response: Result, reply: string, now: Timestamp)
    requires FetchData(isbn, response, reply, now) != IndexPanic
    ensures GuardedFetchData(isbn, response, reply, now) == FetchData(isbn, response, reply, now)
  {
  }

  /** fetchData indexes an empty Items list when the response claims a
      result but lists none. */
  lemma EmptyItemsPanics(isbn: string, reply: string, now: Timestamp)
    requires Utf8Len(SanitizedIsbn(isbn)) >= MinIsbnBytes
    ensures FetchData(isbn, Result(1, []), reply, now) == IndexPanic
  {
  }
}
