/**
 * The download history kept in list.csv: the ids a run reads at start-up, the line it appends
 * for each download, and the choice of what to download against that history.
 */
module History {
  import opened Text
  import opened Numerals
  import opened Listing

  /** The first field of each line, one per line and in order. */
  function FirstFields(lines: seq<string>): (ids: seq<string>)
    ensures |ids| == |lines|
    ensures forall i :: 0 <= i < |lines| ==> ids[i] == FirstField(lines[i])
  {
    if lines == [] then []
    else FirstFields(lines[..|lines| - 1]) + [FirstField(lines[|lines| - 1])]
  }

  /** The ids `Byr.__init__` reads from the text of list.csv into `self.list`. */
  function HistoryIds(text: string): seq<string>
  {
    FirstFields(Lines(text))
  }

  /** The first fields of two runs of lines are those of each run, one after the other. */
  lemma FirstFieldsAppend(x: seq<string>, y: seq<string>)
    ensures FirstFields(x + y) == FirstFields(x) + FirstFields(y)
  {
    var l, r := FirstFields(x + y), FirstFields(x) + FirstFields(y);
    assert |l| == |r|;
    forall i | 0 <= i < |l|
      ensures l[i] == r[i]
    {
      if i >= |x| {
        assert (x + y)[i] == y[i - |x|];
      }
    }
  }

  /** Reading a history whose last line is complete, then more text, reads the two parts one after the other. */
  lemma HistoryAppend(a: string, b: string)
    requires EndsLine(a)
    ensures HistoryIds(a + b) == HistoryIds(a) + HistoryIds(b)
  {
    LinesAppend(a, b);
    FirstFieldsAppend(Lines(a), Lines(b));
  }

  /** The line `Byr.start` appends for a downloaded torrent; `showSize` stands for Python's `str()` of a float. */
  function EntryLine(t: Torrent, showSize: real -> string): string
  {
    t.id + "," + t.name + "," + showSize(t.size) + "GB," + ShowInt(t.seeders) + "\n"
  }

  /** An id that survives a round trip through list.csv: no field separator and no line break. */
  predicate PlainId(id: string)
  {
    ',' !in id && '\n' !in id
  }

  /** An entry whose only line break is its terminator. */
  predicate OneLine(t: Torrent, showSize: real -> string)
  {
    '\n' !in t.id && '\n' !in t.name && '\n' !in showSize(t.size)
  }

  /** The first line of an entry reads back as the torrent's id, so a later run skips it. */
  lemma EntryReadBack(t: Torrent, showSize: real -> string)
    requires PlainId(t.id)
    ensures HistoryIds(EntryLine(t, showSize)) != []
    ensures HistoryIds(EntryLine(t, showSize))[0] == t.id
  {
    var line := EntryLine(t, showSize);
    var rest := t.name + "," + showSize(t.size) + "GB," + ShowInt(t.seeders) + "\n";
    assert line == (t.id + ",") + rest;
    assert '\n' !in t.id + ",";
    FirstLineStartsWith(t.id + ",", rest);
    var first := Lines(line)[0];
    assert first == t.id + "," + first[|t.id| + 1..];
    FirstFieldOfPrefix(t.id, first[|t.id| + 1..]);
  }

  /** An entry without stray line breaks is exactly one line of history, holding the id. */
  lemma EntryReadsAsOneId(t: Torrent, showSize: real -> string)
    requires PlainId(t.id) && OneLine(t, showSize)
    ensures HistoryIds(EntryLine(t, showSize)) == [t.id]
  {
    var line := EntryLine(t, showSize);
    var body := line[..|line| - 1];
    assert body == t.id + "," + t.name + "," + showSize(t.size) + "GB," + ShowInt(t.seeders);
    assert '\n' !in body;
    assert line[..|line| - 1] == body;
    LineEndAt(line, |line|);
    assert line[..|line|] == line && line[|line|..] == [];
    assert Lines(line) == [line] + Lines([]);
    EntryReadBack(t, showSize);
  }

  /** A torrent qualifies for download when its id is not in the history and it is `ok`. */
  predicate Qualifies(history: seq<string>, t: Torrent)
  {
    t.id !in history && Ok(t)
  }

  /** The torrents of `ts` that qualify against the history read at start-up, in their order. */
  function Chosen(history: seq<string>, ts: seq<Torrent>): (r: seq<Torrent>)
    ensures |r| <= |ts|
    ensures forall t :: t in r <==> t in ts && Qualifies(history, t)
  {
    if ts == [] then []
    else
      var init, last := ts[..|ts| - 1], ts[|ts| - 1];
      assert ts == init + [last];
      if Qualifies(history, last) then Chosen(history, init) + [last] else Chosen(history, init)
  }

  /** The ids of `ts`, in order. */
  function Ids(ts: seq<Torrent>): (r: seq<string>)
    ensures |r| == |ts|
    ensures forall i :: 0 <= i < |ts| ==> r[i] == ts[i].id
  {
    if ts == [] then [] else Ids(ts[..|ts| - 1]) + [ts[|ts| - 1].id]
  }

  /** The lines appended for `ts`, one after the other. */
  function Entries(ts: seq<Torrent>, showSize: real -> string): (text: string)
    ensures EndsLine(text)
  {
    if ts == [] then [] else Entries(ts[..|ts| - 1], showSize) + EntryLine(ts[|ts| - 1], showSize)
  }

  /** One more torrent is chosen after the others exactly when it qualifies, and adds its id and its line. */
  lemma ChosenStep(history: seq<string>, done: seq<Torrent>, t: Torrent, showSize: real -> string)
    ensures Chosen(history, done + [t]) ==
      Chosen(history, done) + if Qualifies(history, t) then [t] else []
    ensures Ids(Chosen(history, done) + [t]) == Ids(Chosen(history, done)) + [t.id]
    ensures Entries(Chosen(history, done) + [t], showSize) ==
      Entries(Chosen(history, done), showSize) + EntryLine(t, showSize)
  {
    var before := Chosen(history, done);
    assert (done + [t])[..|done|] == done;
    assert (before + [t])[..|before|] == before;
    if !Qualifies(history, t) {
      assert before + [] == before;
    }
  }

  /** Appending a line to a text that ends a line gives a text that ends a line. */
  lemma EndsLineAppend(a: string, b: string)
    requires EndsLine(a) && EndsLine(b)
    ensures EndsLine(a + b)
  {
    if b == [] { assert a + b == a; }
  }

  /** The history after one more entry is the history before it followed by the ids of that entry's line. */
  lemma HistoryAfterEntry(history: string, ts: seq<Torrent>, showSize: real -> string)
    requires EndsLine(history) && ts != []
    ensures HistoryIds(history + Entries(ts, showSize)) ==
      HistoryIds(history + Entries(ts[..|ts| - 1], showSize)) + HistoryIds(EntryLine(ts[|ts| - 1], showSize))
  {
    var before, line := history + Entries(ts[..|ts| - 1], showSize), EntryLine(ts[|ts| - 1], showSize);
    ConcatAssoc(history, Entries(ts[..|ts| - 1], showSize), line);
    EndsLineAppend(history, Entries(ts[..|ts| - 1], showSize));
    HistoryAppend(before, line);
  }

  /** A history followed by the entries of `ts` reads back as that history followed by the ids of `ts`. */
  lemma {:induction false} EntriesRoundTrip(history: string, ts: seq<Torrent>, showSize: real -> string)
    requires EndsLine(history)
    requires forall t :: t in ts ==> PlainId(t.id) && OneLine(t, showSize)
    ensures HistoryIds(history + Entries(ts, showSize)) == HistoryIds(history) + Ids(ts)
  {
    if ts == [] {
      assert history + Entries(ts, showSize) == history;
      assert HistoryIds(history) + Ids(ts) == HistoryIds(history);
    } else {
      var init, last := ts[..|ts| - 1], ts[|ts| - 1];
      var before, line := history + Entries(init, showSize), EntryLine(last, showSize);
      HistoryAfterEntry(history, ts, showSize);
      assert HistoryIds(before) == HistoryIds(history) + Ids(init) by {
        EntriesRoundTrip(history, init, showSize);
      }
      assert HistoryIds(line) == [last.id] by {
        EntryReadsAsOneId(last, showSize);
      }
      assert Ids(ts) == Ids(init) + [last.id];
      ConcatAssoc(HistoryIds(history), Ids(init), [last.id]);
    }
  }

  /** Whatever their names, the entries of `ts` keep the history read before them and make every id in `ts` known. */
  lemma {:induction false} EntriesRemembered(history: string, ts: seq<Torrent>, showSize: real -> string)
    requires EndsLine(history)
    requires forall t :: t in ts ==> PlainId(t.id)
    ensures HistoryIds(history) <= HistoryIds(history + Entries(ts, showSize))
    ensures forall t :: t in ts ==> t.id in HistoryIds(history + Entries(ts, showSize))
  {
    if ts == [] {
      assert history + Entries(ts, showSize) == history;
    } else {
      var init, last := ts[..|ts| - 1], ts[|ts| - 1];
      assert ts == init + [last];
      var before, line := history + Entries(init, showSize), EntryLine(last, showSize);
      EntriesRemembered(history, init, showSize);
      var known, added := HistoryIds(before), HistoryIds(line);
      HistoryAfterEntry(history, ts, showSize);
      assert last.id in added by {
        EntryReadBack(last, showSize);
      }
      forall t | t in ts
        ensures t.id in known + added
      {
        if t != last {
          assert t in init;
        }
      }
    }
  }

  /** When no torrent of `ts` qualifies, nothing is chosen. */
  lemma {:induction false} NothingQualifies(history: seq<string>, ts: seq<Torrent>)
    requires forall t :: t in ts ==> !Qualifies(history, t)
    ensures Chosen(history, ts) == []
  {
    if ts != [] {
      assert ts[|ts| - 1] in ts;
      NothingQualifies(history, ts[..|ts| - 1]);
    }
  }

  /**
   * Running again on the same listing, with the history the first run left, downloads nothing:
   * what was downloaded is now in the history, and what was not still fails the same test.
   */
  lemma SecondRunChoosesNothing(history: string, ts: seq<Torrent>, showSize: real -> string)
    requires EndsLine(history)
    requires forall t :: t in ts ==> PlainId(t.id)
    ensures Chosen(HistoryIds(history + Entries(Chosen(HistoryIds(history), ts), showSize)), ts) == []
  {
    var first := Chosen(HistoryIds(history), ts);
    var after := HistoryIds(history + Entries(first, showSize));
    EntriesRemembered(history, first, showSize);
    var known := HistoryIds(history);
    forall t | t in ts
      ensures !Qualifies(after, t)
    {
      if Qualifies(known, t) {
        assert t in first;
      } else if t.id in known {
        var k :| 0 <= k < |known| && known[k] == t.id;
        assert after[k] == t.id;
      }
    }
    NothingQualifies(after, ts);
  }
}
