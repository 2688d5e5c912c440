/**
 * Deduplication (`remove_duplicates`): the rows whose (Company_Name, Number,
 * Full_Address) already occurred in an earlier row are dropped, as
 * `df[~df.duplicated(subset=..., keep="first")]` does.
 */
module Dedup {
  import opened Wrappers
  import opened Extraction

  /** The subset of columns compared. A column a row lacks reads as `None`
      (pandas' missing value, which `duplicated` treats as equal to itself). */
  datatype RowKey = RowKey(name: Option<string>, number: Option<string>, address: Option<string>)

  function Cell(row: Record, column: string): Option<string> {
    if column in row then Some(row[column]) else None
  }

  function Key(row: Record): RowKey {
    RowKey(Cell(row, "Company_Name"), Cell(row, "Number"), Cell(row, "Full_Address"))
  }

  /** `duplicated(keep="first")` at row `i`: an earlier row has the same key. */
  predicate Duplicated(rows: seq<Record>, i: int)
    requires 0 <= i < |rows|
  {
    exists j :: 0 <= j < i && Key(rows[j]) == Key(rows[i])
  }

  /** The boolean mask that `duplicated` returns, one entry per row. */
  function DuplicatedMask(rows: seq<Record>): (mask: seq<bool>)
    ensures |mask| == |rows|
    ensures forall i :: 0 <= i < |rows| ==> mask[i] == Duplicated(rows, i)
  {
    seq(|rows|, i requires 0 <= i < |rows| => Duplicated(rows, i))
  }

  /** Boolean indexing `rows[~drop]`: the rows whose mask entry is false, in order. */
  function Where(rows: seq<Record>, drop: seq<bool>): seq<Record>
    requires |drop| == |rows|
  {
    if rows == [] then []
    else
      var n := |rows| - 1;
      Where(rows[..n], drop[..n]) + (if drop[n] then [] else [rows[n]])
  }

  /** `remove_duplicates`. */
  function RemoveDuplicates(rows: seq<Record>): seq<Record> {
    Where(rows, DuplicatedMask(rows))
  }

  // ---------------------------------------------------------------------
  // Specification helpers

  /** The keys that occur among the rows. */
  function KeySet(rows: seq<Record>): set<RowKey> {
    set r | r in rows :: Key(r)
  }

  /** No two rows share a key. */
  predicate UniqueKeys(rows: seq<Record>) {
    forall i, j :: 0 <= i < j < |rows| ==> Key(rows[i]) != Key(rows[j])
  }

  /** The positions of the rows that are kept, in increasing order. */
  ghost function KeptIndices(rows: seq<Record>): seq<nat> {
    if rows == [] then []
    else
      var n := |rows| - 1;
      KeptIndices(rows[..n]) + (if Duplicated(rows, n) then [] else [n])
  }

  // ---------------------------------------------------------------------
  // Lemmas

  /** Whether a row is a duplicate depends only on the rows up to it. */
  lemma DuplicatedPrefix(rows: seq<Record>, n: int, i: int)
    requires 0 <= i < n <= |rows|
    ensures Duplicated(rows[..n], i) == Duplicated(rows, i)
  {
    if Duplicated(rows, i) {
      var j :| 0 <= j < i && Key(rows[j]) == Key(rows[i]);
      assert rows[..n][j] == rows[j];
    }
  }

  /** Deduplicating a batch with one more row at the end appends that row
      exactly when its key is new. */
  lemma RemoveDuplicatesSnoc(rows: seq<Record>)
    requires rows != []
    ensures var n := |rows| - 1;
      RemoveDuplicates(rows)
        == RemoveDuplicates(rows[..n]) + (if Duplicated(rows, n) then [] else [rows[n]])
  {
    var n := |rows| - 1;
    forall i | 0 <= i < n ensures DuplicatedMask(rows)[..n][i] == DuplicatedMask(rows[..n])[i] {
      DuplicatedPrefix(rows, n, i);
    }
    assert DuplicatedMask(rows)[..n] == DuplicatedMask(rows[..n]);
  }

  lemma DuplicatedIffSeen(rows: seq<Record>)
    requires rows != []
    ensures Duplicated(rows, |rows| - 1) <==> Key(rows[|rows| - 1]) in KeySet(rows[..|rows| - 1])
  {
    var n := |rows| - 1;
    if Key(rows[n]) in KeySet(rows[..n]) {
      var r :| r in rows[..n] && Key(r) == Key(rows[n]);
      var j :| 0 <= j < n && rows[..n][j] == r;
      assert Key(rows[j]) == Key(rows[n]);
    }
    if Duplicated(rows, n) {
      var j :| 0 <= j < n && Key(rows[j]) == Key(rows[n]);
      assert rows[..n][j] == rows[j];
    }
  }

  /** After deduplication no two rows share a key, and exactly the keys of the
      input remain. */
  lemma {:induction false} RemoveDuplicatesUnique(rows: seq<Record>)
    ensures UniqueKeys(RemoveDuplicates(rows))
    ensures KeySet(RemoveDuplicates(rows)) == KeySet(rows)
  {
    if rows != [] {
      var n := |rows| - 1;
      var front := RemoveDuplicates(rows[..n]);
      RemoveDuplicatesUnique(rows[..n]);
      RemoveDuplicatesSnoc(rows);
      DuplicatedIffSeen(rows);
      assert rows == rows[..n] + [rows[n]];
      assert KeySet(rows) == KeySet(rows[..n]) + {Key(rows[n])};
      if !Duplicated(rows, n) {
        var out := front + [rows[n]];
        assert KeySet(out) == KeySet(front) + {Key(rows[n])};
        forall i, j | 0 <= i < j < |out| ensures Key(out[i]) != Key(out[j]) {
          if j == |front| {
            assert out[i] in front;
          } else {
            assert out[i] == front[i] && out[j] == front[j];
          }
        }
      }
    }
  }

  /** The kept positions are increasing, every one is in range, and a position
      is kept exactly when it holds the first row with its key. */
  lemma {:induction false} KeptIndicesSpec(rows: seq<Record>)
    ensures var k := KeptIndices(rows);
      && (forall a, b :: 0 <= a < b < |k| ==> k[a] < k[b])
      && (forall a :: 0 <= a < |k| ==> k[a] < |rows|)
      && (forall i :: 0 <= i < |rows| ==> (i in k <==> !Duplicated(rows, i)))
  {
    if rows != [] {
      var n := |rows| - 1;
      KeptIndicesSpec(rows[..n]);
      forall i | 0 <= i < n ensures Duplicated(rows[..n], i) == Duplicated(rows, i) {
        DuplicatedPrefix(rows, n, i);
      }
    }
  }

  /** The output is the input read at the kept positions: an order-preserving
      subsequence made of the first row of each key. */
  lemma {:induction false} RemoveDuplicatesSelects(rows: seq<Record>)
    ensures var out, k := RemoveDuplicates(rows), KeptIndices(rows);
      |out| == |k| && forall a :: 0 <= a < |k| ==> k[a] < |rows| && out[a] == rows[k[a]]
  {
    if rows != [] {
      var n := |rows| - 1;
      RemoveDuplicatesSelects(rows[..n]);
      RemoveDuplicatesSnoc(rows);
      KeptIndicesSpec(rows[..n]);
    }
  }

  /** The first row with each key is kept, and every kept row is the first with its key. */
  lemma FirstOccurrenceKept(rows: seq<Record>)
    ensures forall i :: 0 <= i < |rows| && !Duplicated(rows, i) ==> rows[i] in RemoveDuplicates(rows)
    ensures forall r :: r in RemoveDuplicates(rows) ==>
      exists i :: 0 <= i < |rows| && rows[i] == r && !Duplicated(rows, i)
  {
    var out, k := RemoveDuplicates(rows), KeptIndices(rows);
    RemoveDuplicatesSelects(rows);
    KeptIndicesSpec(rows);
    forall i | 0 <= i < |rows| && !Duplicated(rows, i) ensures rows[i] in out {
      var a :| 0 <= a < |k| && k[a] == i;
      assert out[a] == rows[i];
    }
    forall r | r in out ensures exists i :: 0 <= i < |rows| && rows[i] == r && !Duplicated(rows, i) {
      var a :| 0 <= a < |out| && out[a] == r;
      assert k[a] in k;
    }
  }

  /** A batch whose keys are already unique is left as it is. */
  lemma {:induction false} RemoveDuplicatesOfUnique(rows: seq<Record>)
    requires UniqueKeys(rows)
    ensures RemoveDuplicates(rows) == rows
  {
    if rows != [] {
      var n := |rows| - 1;
      assert UniqueKeys(rows[..n]);
      RemoveDuplicatesOfUnique(rows[..n]);
      RemoveDuplicatesSnoc(rows);
      assert !Duplicated(rows, n);
    }
  }

  /** Deduplicating the output again changes nothing. */
  lemma RemoveDuplicatesIdempotent(rows: seq<Record>)
    ensures RemoveDuplicates(RemoveDuplicates(rows)) == RemoveDuplicates(rows)
  {
    RemoveDuplicatesUnique(rows);
    RemoveDuplicatesOfUnique(RemoveDuplicates(rows));
  }
}
