/**
 * The dataset file as `update_csv_with_data` uses it, without the CSV text format:
 * whether the file exists, and its lines in order, each the header or one record.
 * Reading it with `csv.DictReader` takes the first line as the header and every later
 * line as a row; a header line written again later reads back as a row whose fields
 * are the column names.
 */
module CsvStore {
  import opened Keyed

  datatype Line<R> = Header | Record(row: R)

  datatype CsvFile<R> = CsvFile(present: bool, lines: seq<Line<R>>)

  /** How a line after the first reads back. */
  function AsRow<R>(l: Line<R>, headerRow: R): R {
    match l
    case Header => headerRow
    case Record(r) => r
  }

  /**
   * The rows `csv.DictReader` yields: nothing for a missing or empty file, otherwise
   * one row per line after the first.
   */
  function ReadRows<R>(f: CsvFile<R>, headerRow: R): (rows: seq<R>)
    ensures |rows| == if !f.present || f.lines == [] then 0 else |f.lines| - 1
  {
    if !f.present || f.lines == [] then [] else LinesAsRows(f.lines[1..], headerRow)
  }

  function LinesAsRows<R>(ls: seq<Line<R>>, headerRow: R): (rows: seq<R>)
    ensures |rows| == |ls|
    ensures forall i :: 0 <= i < |ls| ==> rows[i] == AsRow(ls[i], headerRow)
  {
    if ls == [] then [] else [AsRow(ls[0], headerRow)] + LinesAsRows(ls[1..], headerRow)
  }

  lemma {:induction false} LinesAsRowsConcat<R>(a: seq<Line<R>>, b: seq<Line<R>>, headerRow: R)
    ensures LinesAsRows(a + b, headerRow) == LinesAsRows(a, headerRow) + LinesAsRows(b, headerRow)
  {
    var l, r := LinesAsRows(a + b, headerRow), LinesAsRows(a, headerRow) + LinesAsRows(b, headerRow);
    assert |l| == |r|;
    forall i | 0 <= i < |l| ensures l[i] == r[i] {
      if i < |a| { assert (a + b)[i] == a[i]; } else { assert (a + b)[i] == b[i - |a|]; }
    }
  }

  /** One record line per row, in order. */
  function RecordLines<R>(rows: seq<R>): (ls: seq<Line<R>>)
    ensures |ls| == |rows|
    ensures forall i :: 0 <= i < |rows| ==> ls[i] == Record(rows[i])
  {
    if rows == [] then [] else [Record(rows[0])] + RecordLines(rows[1..])
  }

  lemma RecordLinesConcat<R>(a: seq<R>, b: seq<R>)
    ensures RecordLines(a + b) == RecordLines(a) + RecordLines(b)
  {
    assert |RecordLines(a + b)| == |RecordLines(a) + RecordLines(b)|;
    forall i | 0 <= i < |a + b| ensures RecordLines(a + b)[i] == (RecordLines(a) + RecordLines(b))[i] {
      if i < |a| { assert (a + b)[i] == a[i]; } else { assert (a + b)[i] == b[i - |a|]; }
    }
  }

  /** Writing one more record after the lines written so far. */
  lemma RecordLinesSnoc<R>(prefix: seq<Line<R>>, rows: seq<R>, x: R)
    ensures prefix + RecordLines(rows) + [Record(x)] == prefix + RecordLines(rows + [x])
  {
    RecordLinesConcat(rows, [x]);
    assert RecordLines([x]) == [Record(x)];
  }

  lemma RecordLinesRead<R>(rows: seq<R>, headerRow: R)
    ensures LinesAsRows(RecordLines(rows), headerRow) == rows
  {
  }

  /** The rows written as records, in file order, leaving out header lines. */
  function Records<R>(ls: seq<Line<R>>): (rows: seq<R>)
    ensures |rows| <= |ls|
  {
    if ls == [] then []
    else if ls[|ls| - 1].Header? then Records(ls[..|ls| - 1])
    else Records(ls[..|ls| - 1]) + [ls[|ls| - 1].row]
  }

  lemma {:induction false} RecordsConcat<R>(a: seq<Line<R>>, b: seq<Line<R>>)
    ensures Records(a + b) == Records(a) + Records(b)
    decreases |b|
  {
    if b == [] {
      assert a + b == a;
    } else {
      var b' := b[..|b| - 1];
      RecordsConcat(a, b');
      assert (a + b)[..|a + b| - 1] == a + b';
    }
  }

  lemma {:induction false} RecordsOfRecordLines<R>(rows: seq<R>)
    ensures Records(RecordLines(rows)) == rows
    decreases |rows|
  {
    if rows != [] {
      var init, last := rows[..|rows| - 1], rows[|rows| - 1];
      var ls := RecordLines(rows);
      RecordsOfRecordLines(init);
      assert ls[..|ls| - 1] == RecordLines(init);
      assert ls[|ls| - 1] == Record(last);
      assert Records(ls) == Records(RecordLines(init)) + [last];
      assert init + [last] == rows;
    }
  }

  /** Every record of a line sequence is the row some line after the first reads back as. */
  lemma {:induction false} RecordsAreLines<R>(ls: seq<Line<R>>, x: R)
    requires x in Records(ls)
    ensures exists i :: 0 <= i < |ls| && ls[i] == Record(x)
    decreases |ls|
  {
    var init := ls[..|ls| - 1];
    if x in Records(init) {
      RecordsAreLines(init, x);
      var i :| 0 <= i < |init| && init[i] == Record(x);
      assert ls[i] == init[i];
    } else {
      assert ls[|ls| - 1] == Record(x);
    }
  }

  /** Line `i` of an existing file, after the first, reads back as row `i - 1`. */
  lemma LineIsRead<R>(f: CsvFile<R>, headerRow: R, i: nat)
    requires f.present && 1 <= i < |f.lines|
    ensures |ReadRows(f, headerRow)| == |f.lines| - 1
    ensures ReadRows(f, headerRow)[i - 1] == AsRow(f.lines[i], headerRow)
  {
    assert f.lines[1..][i - 1] == f.lines[i];
  }

  /**
   * The only files this program leaves behind: a missing file has no lines, and a
   * file with lines starts with the header.
   */
  predicate WellFormed<R>(f: CsvFile<R>) {
    (f.present || f.lines == []) && (f.lines != [] ==> f.lines[0].Header?)
  }

  /** In a well-formed file every record is read back as a row. */
  lemma RecordsAreRead<R>(f: CsvFile<R>, headerRow: R, x: R)
    requires WellFormed(f) && x in Records(f.lines)
    ensures x in ReadRows(f, headerRow)
  {
    RecordsAreLines(f.lines, x);
    var i :| 0 <= i < |f.lines| && f.lines[i] == Record(x);
    assert i >= 1;
    assert ReadRows(f, headerRow)[i - 1] == x;
  }

  /**
   * Appending to an existing file with lines: the rows read back are the old rows
   * followed by the appended lines.
   */
  lemma ReadRowsAppend<R>(f: CsvFile<R>, extra: seq<Line<R>>, headerRow: R)
    requires f.present && f.lines != []
    ensures ReadRows(CsvFile(true, f.lines + extra), headerRow)
         == ReadRows(f, headerRow) + LinesAsRows(extra, headerRow)
  {
    assert (f.lines + extra)[1..] == f.lines[1..] + extra;
    LinesAsRowsConcat(f.lines[1..], extra, headerRow);
  }

  /*
   * The merge of `update_csv_with_data`, for rows of any type identified by `key`:
   * the existing rows are read into a dictionary by key, a header is written when none
   * was read, and each new row whose key the dictionary lacks is appended. The
   * dictionary is not updated while appending.
   */

  /** The rows whose key is not in `keys`, in order. */
  function Unwritten<R, K(==)>(rows: seq<R>, keys: set<K>, key: R -> K): (r: seq<R>)
    ensures |r| <= |rows|
  {
    if rows == [] then []
    else if key(rows[|rows| - 1]) in keys then Unwritten(rows[..|rows| - 1], keys, key)
    else Unwritten(rows[..|rows| - 1], keys, key) + [rows[|rows| - 1]]
  }

  /** The step of the merge loop: row `j` is appended exactly when its key was not read. */
  lemma UnwrittenStep<R, K>(rows: seq<R>, j: nat, keys: set<K>, key: R -> K)
    requires j < |rows|
    ensures Unwritten(rows[..j + 1], keys, key)
         == if key(rows[j]) in keys then Unwritten(rows[..j], keys, key)
            else Unwritten(rows[..j], keys, key) + [rows[j]]
  {
    assert rows[..j + 1][..j] == rows[..j];
  }

  /**
   * The step of the merge loop with `written` the lines appended for the first `j`
   * rows: row `j` adds its record exactly when its key was not read.
   */
  lemma WriteStep<R, K>(rows: seq<R>, j: nat, keys: set<K>, key: R -> K,
                        header: seq<Line<R>>, written: seq<Line<R>>)
    requires j < |rows| && written == header + RecordLines(Unwritten(rows[..j], keys, key))
    ensures key(rows[j]) in keys ==>
              written == header + RecordLines(Unwritten(rows[..j + 1], keys, key))
    ensures key(rows[j]) !in keys ==>
              written + [Record(rows[j])] == header + RecordLines(Unwritten(rows[..j + 1], keys, key))
  {
    UnwrittenStep(rows, j, keys, key);
    RecordLinesSnoc(header, Unwritten(rows[..j], keys, key), rows[j]);
  }

  /** The merge loop done: what it wrote, after the existing lines, is the merged file. */
  lemma WriteDone<R, K>(f: CsvFile<R>, rows: seq<R>, headerRow: R, key: R -> K,
                        header: seq<Line<R>>, keys: set<K>, written: seq<Line<R>>)
    requires header == HeaderIfNoRows(f, headerRow) && keys == Snapshot(f, headerRow, key)
    requires written == header + RecordLines(Unwritten(rows[..|rows|], keys, key))
    ensures CsvFile(true, f.lines + written) == Merged(f, rows, headerRow, key)
  {
    assert rows[..|rows|] == rows;
  }

  lemma {:induction false} UnwrittenMembers<R, K>(rows: seq<R>, keys: set<K>, key: R -> K, x: R)
    ensures x in Unwritten(rows, keys, key) <==> x in rows && key(x) !in keys
  {
    if rows != [] {
      var init := rows[..|rows| - 1];
      UnwrittenMembers(init, keys, key, x);
      assert rows == init + [rows[|rows| - 1]];
    }
  }

  lemma {:induction false} UnwrittenKeys<R, K>(rows: seq<R>, keys: set<K>, key: R -> K)
    ensures KeysBy(Unwritten(rows, keys, key), key) !! keys
    ensures KeysBy(Unwritten(rows, keys, key), key) <= KeysBy(rows, key)
    ensures UniqueBy(rows, key) ==> UniqueBy(Unwritten(rows, keys, key), key)
  {
    if rows != [] {
      var init := rows[..|rows| - 1];
      var last := rows[|rows| - 1];
      UnwrittenKeys(init, keys, key);
      assert rows == init + [last];
      KeysByAppend(init, last, key);
      if key(last) !in keys {
        KeysByAppend(Unwritten(init, keys, key), last, key);
        if UniqueBy(rows, key) {
          UniqueByPrefix(rows, |init|, key);
          assert key(last) !in KeysBy(init, key) by {
            forall i | 0 <= i < |init| ensures key(init[i]) != key(last) {
              assert rows[i] == init[i];
            }
          }
          UniqueByConcat(Unwritten(init, keys, key), [last], key);
        }
      }
    }
  }

  /**
   * The reading half of the merge: when the file exists, `csv.DictReader` over it, each
   * row stored under its key (a later row under the same key replaces an earlier one).
   * The file is one this program wrote: a first line holding values rather than column
   * names would make every row lack the key columns, and the lookup raise.
   */
  method ReadExisting<R, K(==)>(f: CsvFile<R>, headerRow: R, key: R -> K) returns (existing: map<K, R>)
    requires WellFormed(f)
    ensures existing.Keys == Snapshot(f, headerRow, key)
    ensures forall k :: k in existing ==> existing[k] in ReadRows(f, headerRow) && key(existing[k]) == k
  {
    existing := map[];
    if f.present {
      var rows := ReadRows(f, headerRow);
      var i := 0;
      while i < |rows|
        invariant 0 <= i <= |rows|
        invariant existing.Keys == KeysBy(rows[..i], key)
        invariant forall k :: k in existing ==> existing[k] in rows && key(existing[k]) == k
      {
        var row := rows[i];
        assert rows[..i + 1] == rows[..i] + [row];
        KeysByAppend(rows[..i], row, key);
        existing := existing[key(row) := row];
        i := i + 1;
      }
      assert rows[..|rows|] == rows;
    }
  }

  /** The keys read back from the file before anything is appended. */
  function Snapshot<R, K(==)>(f: CsvFile<R>, headerRow: R, key: R -> K): set<K> {
    KeysBy(ReadRows(f, headerRow), key)
  }

  /** `if not existing_data: writer.writeheader()`. */
  function HeaderIfNoRows<R>(f: CsvFile<R>, headerRow: R): seq<Line<R>> {
    if ReadRows(f, headerRow) == [] then [Header] else []
  }

  /**
   * The lines the merge appends: a header when no existing row was read, then the new
   * rows whose key was not among the rows read before the call, in order.
   */
  function Appended<R, K(==)>(f: CsvFile<R>, rows: seq<R>, headerRow: R, key: R -> K): seq<Line<R>> {
    HeaderIfNoRows(f, headerRow) + RecordLines(Unwritten(rows, Snapshot(f, headerRow, key), key))
  }

  /** The file after the merge: opened for appending, so it exists afterwards. */
  function Merged<R, K(==)>(f: CsvFile<R>, rows: seq<R>, headerRow: R, key: R -> K): CsvFile<R> {
    CsvFile(true, f.lines + Appended(f, rows, headerRow, key))
  }

  /** Lines present before the merge are kept unchanged; later lines are appended. */
  lemma MergeAppendOnly<R, K>(f: CsvFile<R>, rows: seq<R>, headerRow: R, key: R -> K)
    ensures var m := Merged(f, rows, headerRow, key);
      m.present && |f.lines| <= |m.lines| && m.lines[..|f.lines|] == f.lines
    ensures Records(Merged(f, rows, headerRow, key).lines)
            == Records(f.lines) + Unwritten(rows, Snapshot(f, headerRow, key), key)
  {
    var m := Merged(f, rows, headerRow, key);
    var hdr := HeaderIfNoRows(f, headerRow);
    var added := Unwritten(rows, Snapshot(f, headerRow, key), key);
    var tail := Appended(f, rows, headerRow, key);
    assert m.lines[..|f.lines|] == f.lines;
    RecordsConcat(f.lines, tail);
    RecordsConcat(hdr, RecordLines(added));
    RecordsOfRecordLines(added);
    assert Records(hdr) == [];
    assert Records(tail) == added;
  }

  /**
   * A header is written exactly when no row was read before; after it, only records.
   * A new row is appended exactly when its key was not read back before the call.
   */
  lemma MergeHeaderAndRecords<R, K>(f: CsvFile<R>, rows: seq<R>, headerRow: R, key: R -> K, x: R)
    ensures var m := Merged(f, rows, headerRow, key);
      (|m.lines| > |f.lines| && m.lines[|f.lines|].Header?) <==> ReadRows(f, headerRow) == []
    ensures var m := Merged(f, rows, headerRow, key);
      forall i :: |f.lines| < i < |m.lines| ==> m.lines[i].Record?
    ensures Records(Merged(f, rows, headerRow, key).lines[|f.lines|..])
            == Unwritten(rows, Snapshot(f, headerRow, key), key)
    ensures x in rows ==>
              (x in Records(Merged(f, rows, headerRow, key).lines[|f.lines|..])
               <==> key(x) !in Snapshot(f, headerRow, key))
  {
    var m := Merged(f, rows, headerRow, key);
    var hdr := HeaderIfNoRows(f, headerRow);
    var added := Unwritten(rows, Snapshot(f, headerRow, key), key);
    assert m.lines[|f.lines|..] == hdr + RecordLines(added);
    RecordsConcat(hdr, RecordLines(added));
    RecordsOfRecordLines(added);
    assert Records(hdr) == [];
    UnwrittenMembers(rows, Snapshot(f, headerRow, key), key, x);
  }

  /**
   * An existing file holding only the header gets a second one, read back later as a
   * row of column names.
   */
  lemma MergeHeaderOnlyFile<R, K>(rows: seq<R>, headerRow: R, key: R -> K)
    ensures var m := Merged(CsvFile(true, [Header]), rows, headerRow, key);
      m.lines[..2] == [Header, Header] && ReadRows(m, headerRow)[0] == headerRow
  {
    var f: CsvFile<R> := CsvFile(true, [Header]);
    assert ReadRows(f, headerRow) == [];
    var m := Merged(f, rows, headerRow, key);
    assert m.lines[1] == Header;
    LineIsRead(m, headerRow, 1);
  }

  /** Two rows with the same key in one batch are both appended: the dictionary is not updated. */
  lemma MergeRepeatInBatch<R, K>(x: R, headerRow: R, key: R -> K)
    ensures Merged(CsvFile(false, []), [x, x], headerRow, key).lines == [Header, Record(x), Record(x)]
  {
    var f: CsvFile<R> := CsvFile(false, []);
    assert ReadRows(f, headerRow) == [];
    KeysByEmpty([], key);
    assert [x, x][..1] == [x];
    assert [x][..0] == [];
    assert Unwritten([x, x], {}, key) == [x, x];
    assert RecordLines([x, x]) == [Record(x), Record(x)];
  }

  /** After a merge the file reads back every key it read before. */
  lemma SnapshotGrows<R, K>(f: CsvFile<R>, rows: seq<R>, headerRow: R, key: R -> K)
    ensures Snapshot(f, headerRow, key) <= Snapshot(Merged(f, rows, headerRow, key), headerRow, key)
  {
    var tail := Appended(f, rows, headerRow, key);
    if ReadRows(f, headerRow) != [] {
      ReadRowsAppend(f, tail, headerRow);
      KeysByConcat(ReadRows(f, headerRow), LinesAsRows(tail, headerRow), key);
    } else {
      KeysByEmpty(ReadRows(f, headerRow), key);
    }
  }

  /** After a merge the file reads back the key of every row it appended. */
  lemma SnapshotHoldsAppended<R, K>(f: CsvFile<R>, rows: seq<R>, headerRow: R, key: R -> K, x: R)
    requires x in Unwritten(rows, Snapshot(f, headerRow, key), key)
    ensures key(x) in Snapshot(Merged(f, rows, headerRow, key), headerRow, key)
  {
    var m := Merged(f, rows, headerRow, key);
    var hdr := HeaderIfNoRows(f, headerRow);
    var added := Unwritten(rows, Snapshot(f, headerRow, key), key);
    var k :| 0 <= k < |added| && added[k] == x;
    var i := |f.lines| + |hdr| + k;
    assert m.lines == f.lines + (hdr + RecordLines(added));
    assert Appended(f, rows, headerRow, key)[|hdr| + k] == Record(x);
    assert m.lines[i] == Record(x);
    assert f.lines == [] ==> |hdr| == 1;
    LineIsRead(m, headerRow, i);
    var read := ReadRows(m, headerRow);
    assert key(read[i - 1]) in KeysBy(read, key);
  }

  /**
   * Merging the same batch a second time appends no record; it leaves the file as it is
   * unless the first merge left nothing to read back (then a header is added again).
   */
  lemma MergeTwice<R, K>(f: CsvFile<R>, rows: seq<R>, headerRow: R, key: R -> K)
    ensures var m1 := Merged(f, rows, headerRow, key);
      Records(Merged(m1, rows, headerRow, key).lines) == Records(m1.lines)
    ensures var m1 := Merged(f, rows, headerRow, key);
      ReadRows(m1, headerRow) != [] ==> Merged(m1, rows, headerRow, key) == m1
  {
    var m1 := Merged(f, rows, headerRow, key);
    var s0, s1 := Snapshot(f, headerRow, key), Snapshot(m1, headerRow, key);
    assert Unwritten(rows, s1, key) == [] by {
      if Unwritten(rows, s1, key) != [] {
        var y := Unwritten(rows, s1, key)[0];
        UnwrittenMembers(rows, s1, key, y);
        UnwrittenMembers(rows, s0, key, y);
        if key(y) in s0 {
          SnapshotGrows(f, rows, headerRow, key);
        } else {
          SnapshotHoldsAppended(f, rows, headerRow, key, y);
        }
      }
    }
    MergeAppendOnly(m1, rows, headerRow, key);
    assert Records(m1.lines) + [] == Records(m1.lines);
    if ReadRows(m1, headerRow) != [] {
      assert Appended(m1, rows, headerRow, key) == [];
      assert m1.lines + [] == m1.lines;
    }
  }

  /** A job that found nothing, run twice against a missing file, leaves two header lines. */
  lemma EmptyMergeTwice<R, K>(headerRow: R, key: R -> K)
    ensures var m1 := Merged(CsvFile(false, []), [], headerRow, key);
      Merged(m1, [], headerRow, key).lines == [Header, Header]
  {
    var f: CsvFile<R> := CsvFile(false, []);
    assert ReadRows(f, headerRow) == [];
    var m1 := Merged(f, [], headerRow, key);
    assert m1.lines == [Header];
    assert ReadRows(m1, headerRow) == [];
  }

  /**
   * The merge keeps the file well formed, and keeps the records' keys distinct when they
   * were distinct and the new batch has distinct keys.
   */
  lemma MergeKeepsUnique<R, K>(f: CsvFile<R>, rows: seq<R>, headerRow: R, key: R -> K)
    requires WellFormed(f)
    ensures WellFormed(Merged(f, rows, headerRow, key))
    ensures UniqueBy(Records(f.lines), key) && UniqueBy(rows, key) ==>
              UniqueBy(Records(Merged(f, rows, headerRow, key).lines), key)
  {
    var m := Merged(f, rows, headerRow, key);
    var read := ReadRows(f, headerRow);
    MergeAppendOnly(f, rows, headerRow, key);
    if f.lines == [] {
      assert m.lines[0] == Header;
    } else {
      assert m.lines[0] == f.lines[0];
    }
    var added := Unwritten(rows, KeysBy(read, key), key);
    UnwrittenKeys(rows, KeysBy(read, key), key);
    var recs := Records(f.lines);
    assert KeysBy(recs, key) <= KeysBy(read, key) by {
      forall k | k in KeysBy(recs, key) ensures k in KeysBy(read, key) {
        var i :| 0 <= i < |recs| && key(recs[i]) == k;
        RecordsAreRead(f, headerRow, recs[i]);
        var j :| 0 <= j < |read| && read[j] == recs[i];
      }
    }
    if UniqueBy(recs, key) && UniqueBy(rows, key) {
      UniqueByConcat(recs, added, key);
    }
  }
}
