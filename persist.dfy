/**
  Saving the scraped records (`save_data`): the JSON dump of the list and,
  when the list is not empty, a CSV table whose header is the sorted union of
  all record keys. File paths, encodings and the textual JSON and CSV
  renderings are not modelled: a file's content is the value it renders.
 */
module Persist {
  import opened Wrappers
  import opened Listing
  import opened Property
  import opened Crawl

  /** Python's `<` on `str`: lexicographic by code point, a proper prefix
      first. */
  predicate Below(a: string, b: string) {
    if a == [] then b != []
    else b != [] && (a[0] < b[0] || (a[0] == b[0] && Below(a[1..], b[1..])))
  }

  lemma {:induction false} BelowIrreflexive(a: string)
    ensures !Below(a, a)
  {
    if a != [] {
      BelowIrreflexive(a[1..]);
    }
  }

  lemma {:induction false} BelowTransitive(a: string, b: string, c: string)
    requires Below(a, b) && Below(b, c)
    ensures Below(a, c)
  {
    if a != [] && a[0] == b[0] && b[0] == c[0] {
      BelowTransitive(a[1..], b[1..], c[1..]);
    }
  }

  /** Any two different strings are ordered one way or the other. */
  lemma {:induction false} BelowTotal(a: string, b: string)
    requires a != b
    ensures Below(a, b) || Below(b, a)
  {
    if a != [] && b != [] && a[0] == b[0] {
      assert a == [a[0]] + a[1..] && b == [b[0]] + b[1..];
      BelowTotal(a[1..], b[1..]);
    }
  }

  /** `m` is the smallest element of `s`. */
  predicate IsLeast(m: string, s: set<string>) {
    m in s && forall x :: x in s && x != m ==> Below(m, x)
  }

  lemma {:induction false} LeastExists(s: set<string>)
    requires s != {}
    ensures exists m :: IsLeast(m, s)
    decreases |s|
  {
    var x :| x in s;
    if s == {x} {
      assert IsLeast(x, s);
    } else {
      LeastExists(s - {x});
      var m :| IsLeast(m, s - {x});
      BelowTotal(x, m);
      if Below(x, m) {
        forall y | y in s && y != x ensures Below(x, y) {
          if y != m {
            BelowTransitive(x, m, y);
          }
        }
        assert IsLeast(x, s);
      } else {
        assert IsLeast(m, s);
      }
    }
  }

  lemma LeastUnique(s: set<string>)
    ensures forall a, b :: IsLeast(a, s) && IsLeast(b, s) ==> a == b
  {
    forall a, b | IsLeast(a, s) && IsLeast(b, s) ensures a == b {
      if a != b {
        BelowTransitive(a, b, a);
        BelowIrreflexive(a);
      }
    }
  }

  /** The least element is below everything else in the set. */
  lemma LeastBeforeRest(m: string, s: set<string>, r: seq<string>)
    requires IsLeast(m, s) && forall x :: x in r <==> x in s - {m}
    ensures forall j :: 0 <= j < |r| ==> Below(m, r[j])
  {
    forall j | 0 <= j < |r| ensures Below(m, r[j]) {
      assert r[j] in r;
    }
  }

  /** Python's sorting of a set of strings: its elements in ascending order. */
  function SortedKeys(s: set<string>): (r: seq<string>)
    ensures |r| == |s|
    ensures forall x :: x in r <==> x in s
    ensures forall i, j :: 0 <= i < j < |r| ==> Below(r[i], r[j])
    decreases |s|
  {
    if s == {} then []
    else
      LeastExists(s);
      LeastUnique(s);
      var m :| IsLeast(m, s);
      var r := SortedKeys(s - {m});
      LeastBeforeRest(m, s, r);
      [m] + r
  }

  /** A strictly ascending sequence repeats no element. */
  lemma AscendingNoDuplicates(r: seq<string>)
    requires forall i, j :: 0 <= i < j < |r| ==> Below(r[i], r[j])
    ensures NoDuplicates(r)
  {
    forall i, j | 0 <= i < j < |r| ensures r[i] != r[j] {
      if r[i] == r[j] {
        BelowIrreflexive(r[i]);
      }
    }
  }

  /** The set of every key of every record. */
  function KeyUnion(items: seq<Record>): (r: set<string>)
    ensures forall k :: k in r <==> exists i :: 0 <= i < |items| && k in items[i]
  {
    if items == [] then {}
    else
      var init := items[..|items| - 1];
      var u := KeyUnion(init);
      assert forall i :: 0 <= i < |init| ==> init[i] == items[i];
      u + items[|items| - 1].Keys
  }

  /** A CSV file: the header row and the data rows. A cell is `None` where
      the record lacks the column, which `DictWriter` writes as its empty
      `restval`. */
  datatype Table = Table(header: seq<string>, rows: seq<seq<Option<Value>>>)

  /** The row `DictWriter.writerow` writes for `item` under `header`. */
  function Row(header: seq<string>, item: Record): (r: seq<Option<Value>>)
    ensures |r| == |header|
  {
    seq(|header|, i requires 0 <= i < |header| => if header[i] in item then Some(item[header[i]]) else None)
  }

  /** The data rows `DictWriter` writes for `items`, one per item, in order. */
  function Rows(header: seq<string>, items: seq<Record>): (r: seq<seq<Option<Value>>>)
    ensures |r| == |items|
    ensures forall i :: 0 <= i < |items| ==> r[i] == Row(header, items[i])
  {
    if items == [] then [] else Rows(header, items[..|items| - 1]) + [Row(header, items[|items| - 1])]
  }

  /** Reading a row back: each filled cell under its column name. */
  function RecordOfRow(header: seq<string>, row: seq<Option<Value>>): Record
    requires |row| == |header|
  {
    if header == [] then map[]
    else
      var n := |header| - 1;
      var init := RecordOfRow(header[..n], row[..n]);
      if row[n].Some? then init[header[n] := row[n].value] else init
  }

  /** A row keeps exactly the item's fields that have a column. */
  lemma {:induction false} RowKeepsColumns(header: seq<string>, item: Record)
    requires NoDuplicates(header)
    ensures RecordOfRow(header, Row(header, item)) == map k | k in item && k in header :: item[k]
  {
    if header != [] {
      var n := |header| - 1;
      assert Row(header, item)[..n] == Row(header[..n], item);
      RowKeepsColumns(header[..n], item);
      assert forall k :: k in header <==> k in header[..n] || k == header[n];
      assert header[n] !in header[..n];
    }
  }

  /** No field is lost in the CSV when the header covers the record. */
  lemma RowRoundTrip(header: seq<string>, item: Record)
    requires NoDuplicates(header) && forall k :: k in item ==> k in header
    ensures RecordOfRow(header, Row(header, item)) == item
  {
    RowKeepsColumns(header, item);
  }

  /** The CSV `save_data` writes for `items`: none for an empty list;
      otherwise the sorted key union as header and one row per item. */
  function CsvOf(items: seq<Record>): (t: Option<Table>)
    ensures t.None? <==> items == []
    ensures t.Some? ==> NoDuplicates(t.value.header)
    ensures t.Some? ==> forall i, j :: 0 <= i < j < |t.value.header| ==> Below(t.value.header[i], t.value.header[j])
    ensures t.Some? ==> forall i, k :: 0 <= i < |items| && k in items[i] ==> k in t.value.header
    ensures t.Some? ==> forall k :: k in t.value.header ==> exists i :: 0 <= i < |items| && k in items[i]
    ensures t.Some? ==> |t.value.rows| == |items|
  {
    if items == [] then None
    else
      var header := SortedKeys(KeyUnion(items));
      AscendingNoDuplicates(header);
      Some(Table(header, Rows(header, items)))
  }

  /** Every record is recovered from its CSV row: the header has a column
      for each of its fields, so `DictWriter` never rejects a row. */
  lemma CsvRowsRoundTrip(items: seq<Record>, i: nat)
    requires i < |items|
    ensures CsvOf(items).Some?
    ensures RecordOfRow(CsvOf(items).value.header, CsvOf(items).value.rows[i]) == items[i]
  {
    var t := CsvOf(items).value;
    assert t.rows[i] == Row(t.header, items[i]);
    RowRoundTrip(t.header, items[i]);
  }

  /** The header is the same whatever the order of the records. */
  lemma HeaderIgnoresOrder(items: seq<Record>, others: seq<Record>)
    requires items != [] && multiset(items) == multiset(others)
    ensures CsvOf(items).Some? && CsvOf(others).Some?
    ensures CsvOf(items).value.header == CsvOf(others).value.header
  {
    assert KeyUnion(items) == KeyUnion(others) by {
      forall k ensures k in KeyUnion(items) ==> k in KeyUnion(others) {
        if k in KeyUnion(items) {
          var i :| 0 <= i < |items| && k in items[i];
          assert items[i] in multiset(others);
          var j :| 0 <= j < |others| && others[j] == items[i];
        }
      }
      forall k ensures k in KeyUnion(others) ==> k in KeyUnion(items) {
        if k in KeyUnion(others) {
          var j :| 0 <= j < |others| && k in others[j];
          assert others[j] in multiset(items);
          var i :| 0 <= i < |items| && items[i] == others[j];
        }
      }
    }
  }

  /** A non-empty crawl result always gets a `url` column. */
  lemma ScrapedHeaderHasUrl(web: Web, maxPages: int)
    requires Scraped(web, maxPages) != []
    ensures CsvOf(Scraped(web, maxPages)).Some?
    ensures UrlKey in CsvOf(Scraped(web, maxPages)).value.header
  {
    ScrapedCarryUrl(web, 1, maxPages);
    var items := Scraped(web, maxPages);
    assert UrlKey in items[0];
  }

  /** `save_data`: the JSON file holds the whole list; the CSV file is
      written, header first and then row by row, only when the list is not
      empty. */
  method SaveData(items: seq<Record>) returns (json: seq<Record>, csv: Option<Table>)
    ensures json == items
    ensures csv == CsvOf(items)
  {
    json := items;
    csv := None;
    if items != [] {
      var header := SortedKeys(KeyUnion(items));
      var rows: seq<seq<Option<Value>>> := [];
      for n := 0 to |items|
        invariant rows == Rows(header, items[..n])
      {
        rows := rows + [Row(header, items[n])];
        assert items[..n + 1][..n] == items[..n];
      }
      assert items[..|items|] == items;
      csv := Some(Table(header, rows));
    }
  }
}
