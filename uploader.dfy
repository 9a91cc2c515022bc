/**
 The writer side of the vocabulary loader: the remote collection, the loop
 that turns rows into full-overwrite writes in file order, and the guard that
 performs no write at all when the input file cannot be loaded.
 */
module Uploader {
  import opened RowMapper

  /** The documents of the collection, keyed by document identifier. */
  type Docs = map<string, Record>

  /** The outcome of every row, in file order; row `i` is transformed with
      its own 0-based position `i`. */
  function Outcomes(rows: seq<Row>): (outs: seq<Outcome>)
  {
    seq(|rows|, i requires 0 <= i < |rows| => Transform(rows[i], i))
  }

  /** The effect of one outcome on the documents: `set` replaces the whole
      document at `id`; a skip writes nothing. */
  function Apply(docs: Docs, o: Outcome): (r: Docs)
  {
    match o
    case Write(id, rec) => docs[id := rec]
    case Skip(_) => docs
  }

  /** The documents after the outcomes have been applied one after another,
      starting from `docs`. */
  function Store(docs: Docs, outs: seq<Outcome>): (r: Docs)
    decreases |outs|
  {
    if outs == [] then docs
    else Apply(Store(docs, outs[..|outs| - 1]), outs[|outs| - 1])
  }

  /** Outcome `o` writes the document `k`. */
  predicate WritesTo(o: Outcome, k: string)
  {
    o.Write? && o.id == k
  }

  /** Position `j` holds the last write of `k` among `outs`. */
  predicate IsLastWrite(outs: seq<Outcome>, j: int, k: string)
  {
    && 0 <= j < |outs|
    && WritesTo(outs[j], k)
    && forall j' :: j < j' < |outs| ==> !WritesTo(outs[j'], k)
  }

  /** The identifiers that some outcome writes. */
  function WrittenIds(outs: seq<Outcome>): (ids: set<string>)
  {
    set j | 0 <= j < |outs| && outs[j].Write? :: outs[j].id
  }

  /** A key that no outcome writes keeps its prior presence and value. */
  lemma {:induction false} StoreUntouched(docs: Docs, outs: seq<Outcome>, k: string)
    requires forall j :: 0 <= j < |outs| ==> !WritesTo(outs[j], k)
    ensures k in Store(docs, outs) <==> k in docs
    ensures k in docs ==> Store(docs, outs)[k] == docs[k]
  {
    if outs != [] {
      StoreUntouched(docs, outs[..|outs| - 1], k);
    }
  }

  /** Last write wins: a key ends holding the record of its last write. */
  lemma {:induction false} StoreLastWrite(docs: Docs, outs: seq<Outcome>, k: string, j: int)
    requires IsLastWrite(outs, j, k)
    ensures k in Store(docs, outs)
    ensures Store(docs, outs)[k] == outs[j].rec
  {
    var n := |outs| - 1;
    var prefix := outs[..n];
    if j < n {
      assert !WritesTo(outs[n], k);
      assert IsLastWrite(prefix, j, k);
      StoreLastWrite(docs, prefix, k, j);
    }
  }

  /** Any key that is written at all has a last write. */
  lemma {:induction false} LastWriteExists(outs: seq<Outcome>, k: string, j0: int) returns (j: int)
    requires 0 <= j0 < |outs| && WritesTo(outs[j0], k)
    ensures IsLastWrite(outs, j, k)
    decreases |outs| - j0
  {
    if forall j' :: j0 < j' < |outs| ==> !WritesTo(outs[j'], k) {
      j := j0;
    } else {
      var j1 :| j0 < j1 < |outs| && WritesTo(outs[j1], k);
      j := LastWriteExists(outs, k, j1);
    }
  }

  /** The keys after the run are the prior keys plus the written ones. */
  lemma StoreKeys(docs: Docs, outs: seq<Outcome>)
    ensures Store(docs, outs).Keys == docs.Keys + WrittenIds(outs)
  {
    forall k | k in docs.Keys + WrittenIds(outs)
      ensures k in Store(docs, outs)
    {
      if k in WrittenIds(outs) {
        var j0 :| 0 <= j0 < |outs| && outs[j0].Write? && outs[j0].id == k;
        var j := LastWriteExists(outs, k, j0);
        StoreLastWrite(docs, outs, k, j);
      } else {
        StoreUntouched(docs, outs, k);
      }
    }
    forall k | k in Store(docs, outs)
      ensures k in docs.Keys + WrittenIds(outs)
    {
      if k !in WrittenIds(outs) {
        StoreUntouched(docs, outs, k);
      }
    }
  }

  /** Applying the same outcomes a second time leaves the documents as the
      first application left them. */
  lemma StoreIdempotent(docs: Docs, outs: seq<Outcome>)
    ensures Store(Store(docs, outs), outs) == Store(docs, outs)
  {
    var once := Store(docs, outs);
    var twice := Store(once, outs);
    StoreKeys(docs, outs);
    StoreKeys(once, outs);
    forall k | k in once
      ensures twice[k] == once[k]
    {
      if j0 :| 0 <= j0 < |outs| && WritesTo(outs[j0], k) {
        var j := LastWriteExists(outs, k, j0);
        StoreLastWrite(docs, outs, k, j);
        StoreLastWrite(once, outs, k, j);
      } else {
        StoreUntouched(once, outs, k);
      }
    }
  }

  /** Last write wins, in terms of the rows: an accepted row whose identifier
      no later row writes decides the document stored under that identifier. */
  lemma LastRowWins(docs: Docs, rows: seq<Row>, j: int)
    requires 0 <= j < |rows| && Accepted(rows[j].word)
    requires forall j' :: j < j' < |rows| ==>
      !Accepted(rows[j'].word) || DocumentId(rows[j'].word.s) != DocumentId(rows[j].word.s)
    ensures DocumentId(rows[j].word.s) in Store(docs, Outcomes(rows))
    ensures Store(docs, Outcomes(rows))[DocumentId(rows[j].word.s)] ==
            Record(rows[j].word.s, Definition(rows[j].expl))
  {
    var outs := Outcomes(rows);
    var k := DocumentId(rows[j].word.s);
    assert IsLastWrite(outs, j, k);
    StoreLastWrite(docs, outs, k, j);
  }

  /** "A/B" followed by "A-B": both go to "A-B" and the later row wins. */
  lemma SlashHyphenCollision(docs: Docs)
    ensures
      var rows := [Row(Str("A/B"), Str("first")), Row(Str("A-B"), Str("second"))];
      Store(docs, Outcomes(rows)) == docs["A-B" := Record("A-B", "second")]
  {
    var rows := [Row(Str("A/B"), Str("first")), Row(Str("A-B"), Str("second"))];
    assert DocumentId("A/B") == "A-B";
    assert DocumentId("A-B") == "A-B";
    var outs := Outcomes(rows);
    assert outs == [Write("A-B", Record("A/B", "first")), Write("A-B", Record("A-B", "second"))];
    assert outs[..1][..0] == [];
    assert Store(docs, outs[..1]) == docs["A-B" := Record("A/B", "first")];
  }

  /** The number of writes among the outcomes. */
  function WriteCount(outs: seq<Outcome>): (n: nat)
  {
    if outs == [] then 0
    else (if outs[0].Write? then 1 else 0) + WriteCount(outs[1..])
  }

  /** The display numbers of the skip notices, in order. */
  function SkippedRows(outs: seq<Outcome>): (notices: seq<nat>)
  {
    if outs == [] then []
    else (if outs[0].Skip? then [outs[0].displayRow] else []) + SkippedRows(outs[1..])
  }

  /** Every outcome is exactly one of a write or a skip. */
  lemma {:induction false} WritesPlusSkips(outs: seq<Outcome>)
    ensures WriteCount(outs) + |SkippedRows(outs)| == |outs|
  {
    if outs != [] {
      WritesPlusSkips(outs[1..]);
    }
  }

  /** The skip notices are exactly the display numbers of the skips. */
  lemma {:induction false} SkippedRowsMembers(outs: seq<Outcome>, n: nat)
    ensures n in SkippedRows(outs) <==>
            exists i :: 0 <= i < |outs| && outs[i].Skip? && outs[i].displayRow == n
  {
    if outs != [] {
      SkippedRowsMembers(outs[1..], n);
      if exists i :: 1 <= i < |outs| && outs[i].Skip? && outs[i].displayRow == n {
        var i :| 1 <= i < |outs| && outs[i].Skip? && outs[i].displayRow == n;
        assert outs[1..][i - 1] == outs[i];
      }
    }
  }

  /** Run over rows: every row ends written or skipped, and row number `n`
      (header counted, 1-based) is announced as skipped exactly when the row
      at index `n - 2` has no usable word. */
  lemma RowsWrittenOrSkipped(rows: seq<Row>)
    ensures WriteCount(Outcomes(rows)) + |SkippedRows(Outcomes(rows))| == |rows|
    ensures forall n: nat :: n in SkippedRows(Outcomes(rows)) <==>
              2 <= n < |rows| + 2 && !Accepted(rows[n - 2].word)
  {
    var outs := Outcomes(rows);
    WritesPlusSkips(outs);
    forall n: nat
      ensures n in SkippedRows(outs) <==> 2 <= n < |rows| + 2 && !Accepted(rows[n - 2].word)
    {
      SkippedRowsMembers(outs, n);
      if 2 <= n < |rows| + 2 && !Accepted(rows[n - 2].word) {
        assert outs[n - 2].Skip? && outs[n - 2].displayRow == n;
      }
    }
  }

  /** The remote collection. Its only operation here is `set`, a create or
      full replace of one document. */
  class Collection {
    var docs: Docs

    constructor (initial: Docs)
      ensures docs == initial
    {
      docs := initial;
    }

    /** Write `rec` as the whole content of document `id`. */
    method Set(id: string, rec: Record)
      modifies this
      ensures docs == old(docs)[id := rec]
    {
      docs := docs[id := rec];
    }
  }

  /** The row loop: each row once, in file order, either written with one
      full-overwrite `set` or skipped with its display number. */
  method Upload(db: Collection, rows: seq<Row>) returns (log: seq<Outcome>)
    modifies db
    ensures log == Outcomes(rows)
    ensures db.docs == Store(old(db.docs), log)
  {
    log := [];
    var index := 0;
    while index < |rows|
      invariant 0 <= index <= |rows|
      invariant log == Outcomes(rows)[..index]
      invariant db.docs == Store(old(db.docs), log)
    {
      var row := rows[index];
      var o: Outcome;
      if Accepted(row.word) {
        var word := row.word.s;
        var id := DocumentId(word);
        var rec := Record(word, Definition(row.expl));
        db.Set(id, rec);
        o := Write(id, rec);
      } else {
        o := Skip(index + 2);
      }
      assert (log + [o])[..|log|] == log;
      log := log + [o];
      index := index + 1;
    }
  }

  /** Running the loop a second time over the same rows leaves the
      collection as the first run left it. */
  method UploadTwice(db: Collection, rows: seq<Row>)
    modifies db
    ensures db.docs == Store(old(db.docs), Outcomes(rows))
  {
    var first := Upload(db, rows);
    var second := Upload(db, rows);
    StoreIdempotent(old(db.docs), Outcomes(rows));
  }

  /** The result of reading the input file. */
  datatype Load = Loaded(rows: seq<Row>) | FileNotFound

  /** How the run ends. */
  datatype Report = Completed(log: seq<Outcome>) | LoadFailed

  /** The whole script: a failed load writes nothing; otherwise the row loop. */
  method UploadFile(db: Collection, load: Load) returns (report: Report)
    modifies db
    ensures load.FileNotFound? ==> report == LoadFailed && db.docs == old(db.docs)
    ensures load.Loaded? ==> report == Completed(Outcomes(load.rows))
    ensures load.Loaded? ==> db.docs == Store(old(db.docs), Outcomes(load.rows))
  {
    match load
    case FileNotFound =>
      report := LoadFailed;
    case Loaded(rows) =>
      var log := Upload(db, rows);
      report := Completed(log);
  }
}
