/**
 * One torrent of the listing page (`ByrPage`) and the choice of rows that become torrents
 * (`Byr.pages`). The HTML lookups are already done: a row arrives as the id taken from its
 * download link, its title, its category and the texts of its `td` cells in document order.
 */
module Listing {
  import opened Results
  import opened Text
  import opened Numerals

  /** A row of the torrents table, with what BeautifulSoup would extract from it. */
  datatype Row = Row(id: string, name: string, category: string, cells: seq<string>)

  /** The fields of a `ByrPage`; `size` is in gigabytes. */
  datatype Torrent = Torrent(id: string, name: string, category: string, size: real, seeders: int, snatched: int)

  /** Why building a `ByrPage` raises: a negative cell index out of range, or a number Python refuses. */
  datatype RowError = MissingCell | BadNumber(text: string)

  /** `ByrPage.ok`: a torrent is worth downloading when someone seeds it. */
  predicate Ok(t: Torrent)
  {
    t.seeders > 0
  }

  /** `int(text.replace(',', ''))`, the parse of the seeders and snatched cells. */
  function ParseCount(text: string): Option<int>
  {
    ParseInt(StripCommas(text))
  }

  /** The three digits of `m < 1000`, with leading zeros. */
  function ThreeDigits(m: nat): (s: string)
    requires m < 1000
    ensures |s| == 3 && IsNumeral(s) && ',' !in s
  {
    [Digit(m / 100), Digit(m / 10 % 10), Digit(m % 10)]
  }

  /** How the tracker prints a count: groups of three digits separated by commas, as in "1,234". */
  function Grouped(n: nat): string
  {
    if n < 1000 then ShowNat(n) else Grouped(n / 1000) + "," + ThreeDigits(n % 1000)
  }

  /** Removing the separators from a grouped count leaves the plain numeral of that count. */
  lemma {:induction false} GroupedDigits(n: nat)
    ensures StripCommas(Grouped(n)) != [] && IsNumeral(StripCommas(Grouped(n)))
    ensures NumeralValue(StripCommas(Grouped(n))) == n
  {
    if n >= 1000 {
      var high, t := Grouped(n / 1000), ThreeDigits(n % 1000);
      GroupedDigits(n / 1000);
      var h := StripCommas(high);
      assert StripCommas(Grouped(n)) == h + t by {
        StripCommasAppend(high + ",", t);
        StripCommasAppend(high, ",");
        assert StripCommas(",") == [];
        assert h + [] == h;
      }
      assert Pow10(|t|) == 1000;
      NumeralValueAppend(h, t);
      ThreeDigitsValue(n % 1000);
      assert NumeralValue(h + t) == n / 1000 * 1000 + n % 1000;
    }
  }

  /** The three digits of `m < 1000` are its hundreds, tens and units. */
  lemma ThreeDigitsValue(m: nat)
    requires m < 1000
    ensures NumeralValue(ThreeDigits(m)) == m
  {
    var t := ThreeDigits(m);
    var a, b, c := m / 100, m / 10 % 10, m % 10;
    assert NumeralValue(t) == 10 * (10 * a + b) + c by {
      assert t[..2][..1] == [Digit(a)] && t[..2] == [Digit(a), Digit(b)];
      assert NumeralValue([Digit(a)]) == a by {
        assert [Digit(a)][..0] == [];
      }
    }
    DecimalDigits(m);
  }

  /** Hundreds, tens and units put back together. */
  lemma DecimalDigits(m: nat)
    requires m < 1000
    ensures m == 100 * (m / 100) + 10 * (m / 10 % 10) + m % 10
  {
  }

  /** A count printed with thousands separators parses back to itself: "1,234" gives 1234. */
  lemma CountRoundTrip(n: nat)
    ensures ParseCount(Grouped(n)) == Some(n)
  {
    GroupedDigits(n);
  }

  /** `text.endswith('MB')`. */
  predicate EndsWithMB(text: string)
  {
    |text| >= 2 && text[|text| - 2] == 'M' && text[|text| - 1] == 'B'
  }

  /** The unit's scaling: a size in megabytes is divided by 1024, one in any other unit is kept. */
  function InGigabytes(megabytes: bool, number: Option<real>): (r: Option<real>)
    ensures r.Some? <==> number.Some?
  {
    if megabytes && number.Some? then Some(number.value / 1024.0) else number
  }

  /** `ByrPage.tosize`: the last two characters are the unit and are dropped; only "MB" is scaled, by 1/1024. */
  function SizeToGB(text: string): (r: Option<real>)
    ensures |text| < 2 ==> r.None?
  {
    InGigabytes(EndsWithMB(text), ParseDecimal(StripCommas(if |text| >= 2 then text[..|text| - 2] else [])))
  }

  /** `tosize` raises `ValueError` exactly when the text before the unit, its commas removed, is not decimal notation. */
  lemma SizeToGBDomain(text: string)
    ensures SizeToGB(text).Some? <==> |text| >= 2 && DecimalText(StripCommas(text[..|text| - 2]))
  {
    if |text| >= 2 {
      ParseDecimalDomain(StripCommas(text[..|text| - 2]));
    }
  }

  /** Letters before the unit make `tosize` raise. */
  lemma LettersRefused()
    ensures SizeToGB("abcGB").None?
  {
    SizeToGBDomain("abcGB");
    assert "abcGB"[..3] == "abc";
    assert StripCommas("abc") == "abc";
    assert !IsDigit("abc"[0]);
  }

  /** A second point before the unit makes `tosize` raise. */
  lemma SecondPointRefused()
    ensures SizeToGB("1.2.3MB").None?
  {
    SizeToGBDomain("1.2.3MB");
    assert "1.2.3MB"[..5] == "1.2.3";
    assert StripCommas("1.2.3") == "1.2.3";
    assert "1.2.3"[1] == '.' && "1.2.3"[3] == '.';
  }

  /** Whatever the two-character unit, the number before it is read with its commas removed; only "MB" divides it by 1024. */
  lemma SizeDropsUnit(digits: string, unit: string)
    requires |unit| == 2
    ensures SizeToGB(digits + unit) == InGigabytes(EndsWithMB(unit), ParseDecimal(StripCommas(digits)))
  {
    var text := digits + unit;
    assert text[..|text| - 2] == digits;
    assert text[|text| - 2..] == unit;
  }

  /** The same digits in megabytes are exactly 1/1024 of their value in gigabytes, and parse under the same conditions. */
  lemma MegabytesAreGigabytesOver1024(digits: string)
    ensures SizeToGB(digits + "MB").Some? <==> SizeToGB(digits + "GB").Some?
    ensures SizeToGB(digits + "MB").Some? ==>
      SizeToGB(digits + "MB").value == SizeToGB(digits + "GB").value / 1024.0
  {
    SizeDropsUnit(digits, "MB");
    SizeDropsUnit(digits, "GB");
  }

  /** "1.5GB" is 1.5 gigabytes. */
  lemma GigabyteExample()
    ensures SizeToGB("1.5GB") == Some(1.5)
  {
    var f := "5";
    assert "1.5GB" == PrintedSize(1, f) + "GB" by { assert Grouped(1) == "1"; }
    PrintedSizeValue(1, f, "GB");
    assert DecimalValue(1, f) == 1.5 by { assert NumeralValue(f) == 5 && |f| == 1 && Tenths(5.0, 1) == 0.5; }
  }

  /** "1,024MB" is exactly one gigabyte. */
  lemma MegabyteExample()
    ensures SizeToGB("1,024MB") == Some(1.0)
  {
    assert Grouped(1024) == "1,024" by {
      assert Grouped(1) == "1";
      assert ThreeDigits(24) == "024";
    }
    MegabyteRoundTrip(1024);
    assert Grouped(1024) + "MB" == "1,024MB";
    assert 1024 as real / 1024.0 == 1.0;
  }

  /** "0MB" is zero gigabytes. */
  lemma ZeroExample()
    ensures SizeToGB("0MB") == Some(0.0)
  {
    assert "0MB" == "0" + "MB";
    SizeDropsUnit("0", "MB");
    ParseDecimalOfNumeral("0");
  }

  /**
   * `ByrPage.__init__`: the size from the fifth cell from the end, the seeders from the fourth and
   * the snatched count from the second, in that order, the first failure being the one raised.
   */
  function ParseRow(row: Row): (r: Result<Torrent, RowError>)
    ensures r.Success? ==>
      r.value.id == row.id && r.value.name == row.name && r.value.category == row.category
    ensures |row.cells| < 5 <==> r == Failure(MissingCell)
    ensures r.Failure? && r.error.BadNumber? ==>
      r.error.text in [row.cells[|row.cells| - 5], row.cells[|row.cells| - 4], row.cells[|row.cells| - 2]]
  {
    if |row.cells| < 5 then Failure(MissingCell)
    else
      var c := row.cells;
      BuildTorrent(row, SizeToGB(c[|c| - 5]), ParseCount(c[|c| - 4]), ParseCount(c[|c| - 2]))
  }

  /** The torrent from the three converted cells of `row`, or the text of the first cell that did not convert. */
  function BuildTorrent(row: Row, size: Option<real>, seeders: Option<int>, snatched: Option<int>): Result<Torrent, RowError>
    requires |row.cells| >= 5
  {
    var c := row.cells;
    match (size, seeders, snatched)
    case (None, _, _) => Failure(BadNumber(c[|c| - 5]))
    case (_, None, _) => Failure(BadNumber(c[|c| - 4]))
    case (_, _, None) => Failure(BadNumber(c[|c| - 2]))
    case (Some(gb), Some(seeds), Some(done)) => Success(Torrent(row.id, row.name, row.category, gb, seeds, done))
  }

  /** A size printed in megabytes with separators converts to that many 1024ths of a gigabyte. */
  lemma MegabyteRoundTrip(m: nat)
    ensures SizeToGB(Grouped(m) + "MB") == Some(m as real / 1024.0)
  {
    SizeDropsUnit(Grouped(m), "MB");
    GroupedDigits(m);
    ParseDecimalOfNumeral(StripCommas(Grouped(m)));
  }

  /** The build succeeds exactly when all three conversions do, and then holds their values. */
  lemma BuildTorrentFields(row: Row, size: Option<real>, seeders: Option<int>, snatched: Option<int>)
    requires |row.cells| >= 5
    ensures BuildTorrent(row, size, seeders, snatched).Success? <==> size.Some? && seeders.Some? && snatched.Some?
    ensures BuildTorrent(row, size, seeders, snatched).Success? ==>
      BuildTorrent(row, size, seeders, snatched).value == Torrent(row.id, row.name, row.category, size.value, seeders.value, snatched.value)
    ensures size.None? ==> BuildTorrent(row, size, seeders, snatched) == Failure(BadNumber(row.cells[|row.cells| - 5]))
    ensures size.Some? && seeders.None? ==> BuildTorrent(row, size, seeders, snatched) == Failure(BadNumber(row.cells[|row.cells| - 4]))
    ensures size.Some? && seeders.Some? && snatched.None? ==>
      BuildTorrent(row, size, seeders, snatched) == Failure(BadNumber(row.cells[|row.cells| - 2]))
  {
  }

  /**
   * Which cell feeds which field: the build succeeds exactly when the size cell (fifth from the
   * end), the seeders cell (fourth) and the snatched cell (second) all convert, and the torrent
   * then holds those three values. Otherwise the cells are tried in that order and the first that
   * fails is the one named.
   */
  lemma ParseRowCells(row: Row)
    requires |row.cells| >= 5
    ensures var size, seeders, snatched :=
        SizeToGB(row.cells[|row.cells| - 5]), ParseCount(row.cells[|row.cells| - 4]), ParseCount(row.cells[|row.cells| - 2]);
      && (ParseRow(row).Success? <==> size.Some? && seeders.Some? && snatched.Some?)
      && (ParseRow(row).Success? ==>
            ParseRow(row).value == Torrent(row.id, row.name, row.category, size.value, seeders.value, snatched.value))
      && (size.None? ==> ParseRow(row) == Failure(BadNumber(row.cells[|row.cells| - 5])))
      && (size.Some? && seeders.None? ==> ParseRow(row) == Failure(BadNumber(row.cells[|row.cells| - 4])))
      && (size.Some? && seeders.Some? && snatched.None? ==> ParseRow(row) == Failure(BadNumber(row.cells[|row.cells| - 2])))
  {
    var c := row.cells;
    RowIsBuild(row);
    BuildTorrentFields(row, SizeToGB(c[|c| - 5]), ParseCount(c[|c| - 4]), ParseCount(c[|c| - 2]));
  }

  /** A row with all five cells is built from its three converted cells. */
  lemma RowIsBuild(row: Row)
    requires |row.cells| >= 5
    ensures ParseRow(row) ==
      BuildTorrent(row, SizeToGB(row.cells[|row.cells| - 5]), ParseCount(row.cells[|row.cells| - 4]), ParseCount(row.cells[|row.cells| - 2]))
  {
  }

  /** A row whose three cells convert builds the torrent holding the converted values. */
  lemma ParseConvertedRow(row: Row, size: real, seeders: int, snatched: int)
    requires |row.cells| >= 5
    requires SizeToGB(row.cells[|row.cells| - 5]) == Some(size)
    requires ParseCount(row.cells[|row.cells| - 4]) == Some(seeders)
    requires ParseCount(row.cells[|row.cells| - 2]) == Some(snatched)
    ensures ParseRow(row) == Success(Torrent(row.id, row.name, row.category, size, seeders, snatched))
  {
    ParseRowCells(row);
  }

  /** A number followed by a unit converts to that number, divided by 1024 when the unit is "MB". */
  lemma SizeOfNumber(digits: string, unit: string, x: real)
    requires |unit| == 2 && ParseDecimal(StripCommas(digits)) == Some(x)
    ensures SizeToGB(digits + unit) == Some(if EndsWithMB(unit) then x / 1024.0 else x)
  {
    SizeDropsUnit(digits, unit);
    InGigabytesOf(EndsWithMB(unit), ParseDecimal(StripCommas(digits)), x);
  }

  /** A number read in megabytes is divided by 1024; one read in any other unit is kept. */
  lemma InGigabytesOf(megabytes: bool, number: Option<real>, x: real)
    requires number == Some(x)
    ensures InGigabytes(megabytes, number) == Some(if megabytes then x / 1024.0 else x)
  {
  }

  /** A size as the tracker prints it: the whole part with separators, then a point and the fraction digits if there are any. */
  function PrintedSize(whole: nat, fraction: string): string
  {
    if fraction == [] then Grouped(whole) else Grouped(whole) + "." + fraction
  }

  /** The value of a printed size is its digits, point removed, over 10 to the number of fraction digits. */
  lemma DecimalValueShift(whole: nat, fraction: string)
    requires IsNumeral(fraction)
    ensures DecimalValue(whole, fraction) ==
      (whole * Pow10(|fraction|) + NumeralValue(fraction)) as real / Pow10(|fraction|) as real
  {
    var v, p := NumeralValue(fraction), Pow10(|fraction|);
    TenthsPow10(v as real, |fraction|);
    ScaleBack(whole * p + v, whole, v, p);
  }

  /** Removing the separators of a number with a fraction touches only its whole part. */
  lemma StripBeforePoint(g: string, fraction: string)
    requires IsNumeral(fraction)
    ensures StripCommas(g + "." + fraction) == StripCommas(g) + "." + fraction
  {
    StripCommasAppend(g + ".", fraction);
    StripCommasAppend(g, ".");
  }

  /** A size with a fraction is read as its whole part without separators, the point and the fraction digits. */
  lemma SizeWithFraction(g: string, fraction: string, unit: string)
    requires IsNumeral(fraction) && |unit| == 2
    ensures SizeToGB(g + "." + fraction + unit) == InGigabytes(EndsWithMB(unit), ParseDecimal(StripCommas(g) + "." + fraction))
  {
    SizeDropsUnit(g + "." + fraction, unit);
    StripBeforePoint(g, fraction);
  }

  /** A whole number printed with separators reads back as itself. */
  lemma GroupedParses(whole: nat)
    ensures ParseDecimal(StripCommas(Grouped(whole))) == Some(whole as real)
  {
    GroupedDigits(whole);
    ParseDecimalOfNumeral(StripCommas(Grouped(whole)));
  }

  /** Its separators removed, a whole part followed by a point and fraction digits reads as the number they denote. */
  lemma GroupedFractionParses(whole: nat, fraction: string)
    requires IsNumeral(fraction) && fraction != []
    ensures ParseDecimal(StripCommas(Grouped(whole)) + "." + fraction) == Some(DecimalValue(whole, fraction))
  {
    GroupedDigits(whole);
    ParseDecimalParts(StripCommas(Grouped(whole)), fraction);
  }

  /** Any size the tracker prints, followed by any two-character unit, converts to its value, over 1024 for "MB". */
  lemma PrintedSizeValue(whole: nat, fraction: string, unit: string)
    requires IsNumeral(fraction) && |unit| == 2
    ensures SizeToGB(PrintedSize(whole, fraction) + unit) == InGigabytes(EndsWithMB(unit), Some(DecimalValue(whole, fraction)))
  {
    if fraction == [] {
      SizeDropsUnit(Grouped(whole), unit);
      GroupedParses(whole);
    } else {
      SizeWithFraction(Grouped(whole), fraction, unit);
      GroupedFractionParses(whole, fraction);
    }
  }

  /** Corollary of PrintedSizeValue: the same value, with the division by 1024 written out. */
  lemma PrintedSizeScaled(whole: nat, fraction: string, unit: string)
    requires IsNumeral(fraction) && |unit| == 2
    ensures SizeToGB(PrintedSize(whole, fraction) + unit) ==
      Some(if EndsWithMB(unit) then DecimalValue(whole, fraction) / 1024.0 else DecimalValue(whole, fraction))
  {
    PrintedSizeValue(whole, fraction, unit);
    ScaledSize(PrintedSize(whole, fraction) + unit, EndsWithMB(unit), DecimalValue(whole, fraction));
  }

  /** A size read as `x` in its unit is `x`, divided by 1024 for megabytes. */
  lemma ScaledSize(text: string, megabytes: bool, x: real)
    requires SizeToGB(text) == InGigabytes(megabytes, Some(x))
    ensures SizeToGB(text) == Some(if megabytes then x / 1024.0 else x)
  {
    InGigabytesOf(megabytes, Some(x), x);
  }

  /**
   * A row whose size and counts are printed as the tracker prints them builds a torrent with exactly
   * those numbers, the size divided by 1024 when its unit is "MB".
   */
  lemma ParseRenderedRow(row: Row, whole: nat, fraction: string, unit: string, seeders: nat, snatched: nat)
    requires IsNumeral(fraction) && |unit| == 2
    requires |row.cells| >= 5
    requires row.cells[|row.cells| - 5] == PrintedSize(whole, fraction) + unit
    requires row.cells[|row.cells| - 4] == Grouped(seeders)
    requires row.cells[|row.cells| - 2] == Grouped(snatched)
    ensures ParseRow(row) == Success(Torrent(row.id, row.name, row.category,
      if EndsWithMB(unit) then DecimalValue(whole, fraction) / 1024.0 else DecimalValue(whole, fraction),
      seeders, snatched))
  {
    var size := if EndsWithMB(unit) then DecimalValue(whole, fraction) / 1024.0 else DecimalValue(whole, fraction);
    PrintedSizeScaled(whole, fraction, unit);
    CountRoundTrip(seeders);
    CountRoundTrip(snatched);
    ParseConvertedRow(row, size, seeders, snatched);
  }

  /** A row as the tracker prints it: "1.5GB" is 1.5 gigabytes, with 5 seeders and 0 snatches. */
  lemma RowExample()
    ensures ParseRow(Row("42", "name", "type", ["1.5GB", "5", "x", "0", "y"]))
         == Success(Torrent("42", "name", "type", 1.5, 5, 0))
  {
    GigabyteExample();
    assert "5" == Grouped(5) && "0" == Grouped(0);
    CountRoundTrip(5);
    CountRoundTrip(0);
  }

  /** The records of the pages built before the first one that raised, and the error it raised if any. */
  datatype Parsed = Parsed(records: seq<Torrent>, error: Option<RowError>)

  /** The outcome of building a `ByrPage` from each row, in order. */
  function ParseEach(rows: seq<Row>): (results: seq<Result<Torrent, RowError>>)
    ensures |results| == |rows|
  {
    if rows == [] then [] else ParseEach(rows[..|rows| - 1]) + [ParseRow(rows[|rows| - 1])]
  }

  /** Each outcome is that of its own row. */
  lemma {:induction false} ParseEachAt(rows: seq<Row>, i: nat)
    requires i < |rows|
    ensures ParseEach(rows)[i] == ParseRow(rows[i])
  {
    if i < |rows| - 1 {
      ParseEachAt(rows[..|rows| - 1], i);
    }
  }

  /**
   * Going through the outcomes in order and stopping at the first exception: the pages before it
   * are kept and its error ends the run.
   */
  function Collect(results: seq<Result<Torrent, RowError>>): (p: Parsed)
    ensures |p.records| <= |results|
  {
    if results == [] then Parsed([], None)
    else
      match results[0]
      case Failure(e) => Parsed([], Some(e))
      case Success(t) =>
        var rest := Collect(results[1..]);
        Parsed([t] + rest.records, rest.error)
  }

  /**
   * The records are the leading successes, in order; the run is complete exactly when every
   * outcome is a success, and otherwise stops with the first failure.
   */
  lemma {:induction false} CollectAgree(results: seq<Result<Torrent, RowError>>)
    ensures var p := Collect(results);
      && (forall i :: 0 <= i < |p.records| ==> results[i] == Success(p.records[i]))
      && (p.error.None? <==> |p.records| == |results|)
      && (p.error.Some? ==> results[|p.records|] == Failure(p.error.value))
  {
    if results != [] && results[0].Success? {
      CollectAgree(results[1..]);
      var p, rest := Collect(results), Collect(results[1..]);
      forall i | 0 < i < |p.records|
        ensures results[i] == Success(p.records[i])
      {
        assert results[i] == results[1..][i - 1];
        assert p.records[i] == rest.records[i - 1];
      }
      if p.error.Some? {
        assert results[|p.records|] == results[1..][|rest.records|];
      }
    }
  }

  /** One more outcome after a prefix: nothing changes once one has failed; otherwise it is added. */
  lemma {:induction false} CollectSnoc(results: seq<Result<Torrent, RowError>>, r: Result<Torrent, RowError>)
    ensures Collect(results + [r]) ==
      if Collect(results).error.Some? then Collect(results)
      else match r
        case Failure(e) => Parsed(Collect(results).records, Some(e))
        case Success(t) => Parsed(Collect(results).records + [t], None)
  {
    if results == [] {
      assert [] + [r] == [r];
      assert [r][1..] == [];
    } else {
      assert (results + [r])[0] == results[0];
      assert (results + [r])[1..] == results[1..] + [r];
      CollectSnoc(results[1..], r);
    }
  }

  /** The step `Byr.start` takes for each page while none has raised: that page's outcome is added. */
  lemma CollectNext(results: seq<Result<Torrent, RowError>>, i: nat)
    requires i < |results|
    requires Collect(results[..i]).error.None?
    ensures results[i].Failure? ==>
      Collect(results[..i + 1]) == Parsed(Collect(results[..i]).records, Some(results[i].error))
    ensures results[i].Success? ==>
      Collect(results[..i + 1]) == Parsed(Collect(results[..i]).records + [results[i].value], None)
  {
    assert results[..i] + [results[i]] == results[..i + 1];
    CollectSnoc(results[..i], results[i]);
  }

  /** Once a prefix of the outcomes has failed, the outcomes after it are never looked at. */
  lemma {:induction false} CollectStopsEarly(results: seq<Result<Torrent, RowError>>, n: nat)
    requires n <= |results|
    requires Collect(results[..n]).error.Some?
    ensures Collect(results) == Collect(results[..n])
  {
    assert results[..n] != [];
    assert results[..n][0] == results[0];
    if results[0].Success? {
      assert results[..n][1..] == results[1..][..n - 1];
      CollectStopsEarly(results[1..], n - 1);
    }
  }

  /** Building one `ByrPage` per row, in order, stopping at the first row that raises. */
  function ParseRows(rows: seq<Row>): Parsed
  {
    Collect(ParseEach(rows))
  }

  /**
   * The records are the parses of the leading rows, in order; the run is complete exactly when
   * every row parsed, and otherwise stops with the error of the first row that did not.
   */
  lemma ParseRowsAgree(rows: seq<Row>)
    ensures var p := ParseRows(rows);
      && (forall i :: 0 <= i < |p.records| ==> ParseRow(rows[i]) == Success(p.records[i]))
      && (p.error.None? <==> |p.records| == |rows|)
      && (p.error.Some? ==> ParseRow(rows[|p.records|]) == Failure(p.error.value))
  {
    var p := ParseRows(rows);
    CollectAgree(ParseEach(rows));
    forall i | 0 <= i < |p.records|
      ensures ParseRow(rows[i]) == Success(p.records[i])
    {
      ParseEachAt(rows, i);
    }
    if p.error.Some? {
      ParseEachAt(rows, |p.records|);
    }
  }

  /** Every other element, starting with the first. */
  function EveryOther<T>(s: seq<T>): seq<T>
  {
    if |s| <= 1 then s else [s[0]] + EveryOther(s[2..])
  }

  /** `EveryOther` keeps the elements at even positions, in order, and only those. */
  lemma {:induction false} EveryOtherAt<T>(s: seq<T>)
    ensures |EveryOther(s)| == (|s| + 1) / 2
    ensures forall i :: 0 <= i < |EveryOther(s)| ==> EveryOther(s)[i] == s[2 * i]
  {
    if |s| > 1 {
      EveryOtherAt(s[2..]);
      forall i | 0 < i < |EveryOther(s)|
        ensures EveryOther(s)[i] == s[2 * i]
      {
        assert EveryOther(s)[i] == EveryOther(s[2..])[i - 1];
      }
    }
  }

  /** The rows `Byr.pages` turns into pages: drop the two header rows, then every other row. */
  function Selected<T>(rows: seq<T>): seq<T>
  {
    EveryOther(if |rows| <= 2 then [] else rows[2..])
  }

  /** For k rows after the header, ceil(k/2) rows are chosen: those at header-relative offsets 0, 2, 4, ... */
  lemma SelectedRows<T>(rows: seq<T>)
    ensures |Selected(rows)| == if |rows| <= 2 then 0 else (|rows| - 1) / 2
    ensures forall i :: 0 <= i < |Selected(rows)| ==> Selected(rows)[i] == rows[2 + 2 * i]
  {
    EveryOtherAt(if |rows| <= 2 then [] else rows[2..]);
  }
}
