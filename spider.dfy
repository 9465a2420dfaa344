/**
 * The `Byr` spider: the history it loads at start-up, the session it restores or obtains by
 * logging in, and the run that downloads every new, seeded torrent of the first listing page.
 * The network, the captcha solver and the HTML parser are outside the model: what they
 * return arrives as parameters.
 */
module Spider {
  import opened Results
  import opened Text
  import opened Listing
  import opened History

  /** How `Byr.start` ends: after the whole listing, or at the row whose `ByrPage` raised. */
  datatype Outcome = Completed | Aborted(error: RowError)

  class Byr {
    /** `self.list`: the ids read from list.csv when the spider was created. */
    var list: seq<string>
    /** The text of list.csv on disk; None while the file does not exist. */
    var csvFile: Option<string>
    /** The cookie file on disk: None when absent, Some(a) when it holds a session that is logged in iff a. */
    var cookieFile: Option<bool>
    /** Whether the session's cookies are those of a logged-in user. */
    var loggedIn: bool
    /** How many times `login` has run. */
    var logins: nat
    /** How many times the cookies have been written to the cookie file. */
    var saves: nat
    /** The ids whose ./tmp/<id>.torrent files have been written, in order. */
    var torrents: seq<string>

    /** `Byr.__init__`: `csv` and `cookie` are what is on disk; list.csv is read one line at a time. */
    constructor (csv: Option<string>, cookie: Option<bool>)
      ensures list == if csv.Some? then HistoryIds(csv.value) else []
      ensures csvFile == csv && cookieFile == cookie
      ensures !loggedIn && logins == 0 && saves == 0 && torrents == []
    {
      csvFile, cookieFile := csv, cookie;
      loggedIn, logins, saves, torrents := false, 0, 0, [];
      list := [];
      new;
      if csv.Some? {
        var lines := Lines(csv.value);
        for i := 0 to |lines|
          invariant list == FirstFields(lines[..i])
          invariant csvFile == csv && cookieFile == cookie
          invariant !loggedIn && logins == 0 && saves == 0 && torrents == []
        {
          assert lines[..i + 1][..i] == lines[..i];
          list := list + [FirstField(lines[i])];
        }
        assert lines[..|lines|] == lines;
      }
    }

    /** `_save`: writes the session's cookies to the cookie file, replacing what it held. */
    method Save()
      modifies this`cookieFile, this`saves
      ensures cookieFile == Some(loggedIn)
      ensures saves == old(saves) + 1
    {
      cookieFile := Some(loggedIn);
      saves := saves + 1;
    }

    /**
     * `login`: submits the login form; `landed` is whether the reply came from the index page.
     * The cookies are saved only then.
     */
    method Login(landed: bool)
      modifies this`loggedIn, this`logins, this`cookieFile, this`saves
      ensures logins == old(logins) + 1
      ensures loggedIn == landed
      ensures landed ==> cookieFile == Some(true) && saves == old(saves) + 1
      ensures !landed ==> cookieFile == old(cookieFile) && saves == old(saves)
    {
      logins := logins + 1;
      loggedIn := landed;
      if !landed {
        return;
      }
      Save();
    }

    /**
     * `_load`: restores the cookies when the cookie file exists; otherwise logs in and then saves,
     * whether or not the login succeeded.
     */
    method LoadSession(landed: bool)
      modifies this`loggedIn, this`logins, this`cookieFile, this`saves
      ensures old(cookieFile).Some? ==>
        loggedIn == old(cookieFile).value && cookieFile == old(cookieFile) &&
        logins == old(logins) && saves == old(saves)
      ensures old(cookieFile).None? ==>
        loggedIn == landed && cookieFile == Some(landed) &&
        logins == old(logins) + 1 && saves == old(saves) + (if landed then 2 else 1)
    {
      if cookieFile.Some? {
        loggedIn := cookieFile.value;
      } else {
        Login(landed);
        Save();
      }
    }

    /** `pages`: after the two header rows, a counter lets through every other row, starting with the first. */
    method Pages<T>(rows: seq<T>) returns (pages: seq<T>)
      ensures pages == Selected(rows)
    {
      var lines := if |rows| <= 2 then [] else rows[2..];
      var n := 0;
      pages := [];
      for i := 0 to |lines|
        invariant n == i % 2
        invariant |pages| == (i + 1) / 2
        invariant forall k :: 0 <= k < |pages| ==> pages[k] == lines[2 * k]
      {
        if n == 0 {
          pages := pages + [lines[i]];
          n := 1;
        } else {
          n := n - 1;
        }
      }
      EveryOtherAt(lines);
    }

    /**
     * The body of the loop of `start` for a page that was built: a torrent whose id is not in
     * `list` and that is `ok` is downloaded, and its line is appended to list.csv.
     */
    method Visit(page: Torrent, showSize: real -> string)
      requires csvFile.Some?
      modifies this`csvFile, this`torrents
      ensures torrents == old(torrents) + if Qualifies(list, page) then [page.id] else []
      ensures csvFile == Some(old(csvFile).value + if Qualifies(list, page) then EntryLine(page, showSize) else "")
    {
      if page.id !in list && Ok(page) {
        Download(page.id);
        csvFile := Some(csvFile.value + EntryLine(page, showSize));
      } else {
        assert torrents + [] == torrents;
        assert csvFile.value + "" == csvFile.value;
      }
    }

    /** `download`: writes ./tmp/<id>.torrent with the bytes the tracker sends (not modelled). */
    method Download(id: string)
      modifies this`torrents
      ensures torrents == old(torrents) + [id]
    {
      torrents := torrents + [id];
    }

    /**
     * `start`: loads the session, opens list.csv for appending (creating it if need be), then goes
     * through the pages the selected rows become, with `Crawl`.
     */
    method Start(landed: bool, rows: seq<Row>, showSize: real -> string) returns (outcome: Outcome)
      modifies this`loggedIn, this`logins, this`cookieFile, this`saves, this`csvFile, this`torrents
      ensures old(cookieFile).Some? ==>
        loggedIn == old(cookieFile).value && logins == old(logins) && saves == old(saves)
      ensures old(cookieFile).None? ==>
        loggedIn == landed && logins == old(logins) + 1 && saves == old(saves) + (if landed then 2 else 1)
      ensures cookieFile == Some(loggedIn)
      ensures var run := ParseRows(Selected(rows));
              var chosen := Chosen(list, run.records);
              torrents == old(torrents) + Ids(chosen) &&
              csvFile == Some((if old(csvFile).Some? then old(csvFile).value else "") + Entries(chosen, showSize)) &&
              outcome == if run.error.None? then Completed else Aborted(run.error.value)
    {
      LoadSession(landed);
      var text := if csvFile.Some? then csvFile.value else "";
      csvFile := Some(text);
      var pages := Pages(rows);
      assert ParseRows(Selected(rows)) == Collect(ParseEach(pages));
      outcome := Crawl(ParseEach(pages), showSize);
    }

    /**
     * The loop of `start` over the outcomes of building each page: the first exception ends the
     * run; every page before it goes through `Visit`. `list` itself never changes.
     */
    method Crawl(results: seq<Result<Torrent, RowError>>, showSize: real -> string) returns (outcome: Outcome)
      requires csvFile.Some?
      modifies this`csvFile, this`torrents
      ensures var run := Collect(results);
              var chosen := Chosen(list, run.records);
              torrents == old(torrents) + Ids(chosen) &&
              csvFile == Some(old(csvFile).value + Entries(chosen, showSize)) &&
              outcome == if run.error.None? then Completed else Aborted(run.error.value)
    {
      ghost var text, downloaded, history := csvFile.value, torrents, list;
      ghost var done: seq<Torrent> := [];
      assert text + Entries(Chosen(history, done), showSize) == text;
      var i := 0;
      assert results[..i] == [];
      while i < |results|
        invariant 0 <= i <= |results|
        invariant history == list
        invariant Collect(results[..i]) == Parsed(done, None)
        invariant torrents == downloaded + Ids(Chosen(history, done))
        invariant csvFile == Some(text + Entries(Chosen(history, done), showSize))
      {
        if results[i].Failure? {
          CollectNext(results, i);
          CollectStopsEarly(results, i + 1);
          return Aborted(results[i].error);
        }
        var page := results[i].value;
        CrawlStep(history, results, i, done, page, downloaded, text, showSize);
        Visit(page, showSize);
        done := done + [page];
        i := i + 1;
      }
      assert results[..i] == results;
      outcome := Completed;
    }
  }

  /**
   * What one successful pass of the loop of `Byr.start` does to the run so far: the page joins the
   * records, and when it qualifies its id joins the downloads and its line joins list.csv.
   */
  lemma CrawlStep(list: seq<string>, results: seq<Result<Torrent, RowError>>, i: nat, done: seq<Torrent>,
                  page: Torrent, downloaded: seq<string>, text: string, showSize: real -> string)
    requires i < |results|
    requires Collect(results[..i]) == Parsed(done, None)
    requires results[i] == Success(page)
    ensures Collect(results[..i + 1]) == Parsed(done + [page], None)
    ensures downloaded + Ids(Chosen(list, done + [page])) ==
      downloaded + Ids(Chosen(list, done)) + if Qualifies(list, page) then [page.id] else []
    ensures text + Entries(Chosen(list, done + [page]), showSize) ==
      text + Entries(Chosen(list, done), showSize) + if Qualifies(list, page) then EntryLine(page, showSize) else ""
  {
    CollectNext(results, i);
    var chosen := Chosen(list, done);
    ChosenStep(list, done, page, showSize);
    if Qualifies(list, page) {
      ConcatAssoc(downloaded, Ids(chosen), [page.id]);
      ConcatAssoc(text, Entries(chosen, showSize), EntryLine(page, showSize));
    } else {
      assert chosen + [] == chosen;
      assert downloaded + Ids(chosen) + [] == downloaded + Ids(chosen);
      assert text + Entries(chosen, showSize) + "" == text + Entries(chosen, showSize);
    }
  }

  /**
   * A listing with one seeded torrent after the two header rows, an empty history and a stored
   * session: the run downloads that torrent and list.csv holds exactly its line.
   */
  method OneNewTorrent(header: Row, row: Row, t: Torrent, showSize: real -> string)
    returns (downloaded: seq<string>, appended: string)
    requires ParseRow(row) == Success(t) && Ok(t)
    ensures downloaded == [row.id]
    ensures appended == EntryLine(t, showSize)
  {
    assert ParseRows(Selected([header, header, row])) == Parsed([t], None) by {
      assert Selected([header, header, row]) == [row];
      assert ParseEach([row]) == [ParseRow(row)] by {
        assert [row][..0] == [];
      }
      var outcomes: seq<Result<Torrent, RowError>> := [Success(t)];
      assert outcomes[1..] == [];
      assert Collect(outcomes) == Parsed([t] + [], None);
      assert [t] + [] == [t];
    }
    assert Chosen([], [t]) == [t] by {
      assert [t][..0] == [];
    }
    assert Ids([t]) == [t.id];
    assert Entries([t], showSize) == EntryLine(t, showSize) by {
      assert [t][..0] == [];
    }
    var spider := new Byr(None, Some(true));
    var _ := spider.Start(true, [header, header, row], showSize);
    downloaded := spider.torrents;
    appended := spider.csvFile.value;
  }

  /** Every torrent built from rows whose ids are plain has a plain id. */
  lemma PlainRecords(rows: seq<Row>)
    requires forall r :: r in rows ==> PlainId(r.id)
    ensures forall t :: t in ParseRows(Selected(rows)).records ==> PlainId(t.id)
  {
    var pages := Selected(rows);
    var run := ParseRows(pages);
    SelectedRows(rows);
    ParseRowsAgree(pages);
    forall t | t in run.records
      ensures PlainId(t.id)
    {
      var k :| 0 <= k < |run.records| && run.records[k] == t;
      assert ParseRow(pages[k]) == Success(t);
      assert pages[k] in rows;
    }
  }

  /**
   * A run on the history the previous run left behind, over the same listing, downloads nothing,
   * provided list.csv ended with a complete line and no id holds a comma or a line break.
   */
  method SecondRunDownloadsNothing(csv: Option<string>, cookie: Option<bool>, landed: bool,
                                   rows: seq<Row>, showSize: real -> string) returns (again: seq<string>)
    requires csv.Some? ==> EndsLine(csv.value)
    requires forall r :: r in rows ==> PlainId(r.id)
    ensures again == []
  {
    var text := if csv.Some? then csv.value else "";
    ghost var records := ParseRows(Selected(rows)).records;
    PlainRecords(rows);
    SecondRunChoosesNothing(text, records, showSize);
    var first := new Byr(csv, cookie);
    var _ := first.Start(landed, rows, showSize);
    var second := new Byr(first.csvFile, first.cookieFile);
    var _ := second.Start(landed, rows, showSize);
    again := second.torrents;
  }

  /**
   * With no cookie file and a login whose reply is not the index page, the run still saves the
   * cookies; the next run finds the cookie file and never logs in again.
   */
  method FailedLoginIsKept(csv: Option<string>, rows: seq<Row>, showSize: real -> string)
    returns (firstLogins: nat, stored: Option<bool>, secondLogins: nat)
    ensures firstLogins == 1 && stored == Some(false) && secondLogins == 0
  {
    var first := new Byr(csv, None);
    var _ := first.Start(false, rows, showSize);
    var second := new Byr(first.csvFile, first.cookieFile);
    var _ := second.Start(true, rows, showSize);
    firstLogins, stored, secondLogins := first.logins, first.cookieFile, second.logins;
  }
}
