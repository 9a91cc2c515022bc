/**
 The per-row part of the vocabulary loader: reading the two consumed cells of
 one CSV row, deciding whether the row is skipped, and deriving the document
 identifier and the record that is written for it.
 */
module RowMapper {

  /** One cell of the table. `Missing` stands for both an absent column
      (`row.get` yields None) and an empty CSV field (pandas yields NaN). */
  datatype Cell = Missing | Str(s: string)

  /** The two consumed columns, `English word` and `English explanation`. */
  datatype Row = Row(word: Cell, expl: Cell)

  /** The document written to the store: fields `word` and `definition`. */
  datatype Record = Record(word: string, definition: string)

  /** What the loop does with one row: a full-overwrite write of `rec` under
      `id`, or a skip notice naming the row as a person counts it in the file. */
  datatype Outcome = Write(id: string, rec: Record) | Skip(displayRow: nat)

  /** Python truthiness of the cell. For `Missing` this is None's (false);
      a NaN would be true, but `NotNa` rejects it, so `Accepted` is the same
      for both. The empty string is false, every other string (whitespace
      only included) is true. */
  predicate Truthy(c: Cell)
  {
    match c
    case Missing => false
    case Str(s) => s != ""
  }

  /** `pd.notna`: false for None and NaN, true for any string. */
  predicate NotNa(c: Cell)
  {
    c.Str?
  }

  /** The guard of the row loop: `english_word and pd.notna(english_word)`. */
  predicate Accepted(word: Cell)
  {
    Truthy(word) && NotNa(word)
  }

  /** The guard accepts exactly the non-empty strings. */
  lemma AcceptedIff(word: Cell)
    ensures Accepted(word) <==> (word.Str? && |word.s| > 0)
  {
  }

  /** `SlashToHyphen` maps one character as `replace('/', '-')` does. */
  function SlashToHyphen(c: char): (h: char)
  {
    if c == '/' then '-' else c
  }

  /** The document identifier: the word with every `/` replaced by `-`.
      Same length, no slash left, every other character kept in place. */
  function DocumentId(word: string): (id: string)
    ensures |id| == |word|
    ensures forall i :: 0 <= i < |word| ==> id[i] == SlashToHyphen(word[i])
    ensures '/' !in id
  {
    if word == [] then []
    else [SlashToHyphen(word[0])] + DocumentId(word[1..])
  }

  /** Deriving the identifier a second time changes nothing. */
  lemma DocumentIdIdempotent(word: string)
    ensures DocumentId(DocumentId(word)) == DocumentId(word)
  {
    var id := DocumentId(word);
    assert forall i :: 0 <= i < |id| ==> DocumentId(id)[i] == id[i];
  }

  /** A word is its own identifier exactly when it contains no slash. */
  lemma DocumentIdFixedIff(word: string)
    ensures DocumentId(word) == word <==> '/' !in word
  {
    if '/' !in word {
      assert forall i :: 0 <= i < |word| ==> DocumentId(word)[i] == word[i];
    }
  }

  /** Two words that differ only in `/` versus `-` at some positions get the
      same identifier. */
  lemma DocumentIdCollides(a: string, b: string)
    requires |a| == |b|
    requires forall i :: 0 <= i < |a| ==> SlashToHyphen(a[i]) == SlashToHyphen(b[i])
    ensures DocumentId(a) == DocumentId(b)
  {
    assert forall i :: 0 <= i < |a| ==> DocumentId(a)[i] == DocumentId(b)[i];
  }

  /** The `definition` field: the explanation when present, `""` otherwise. */
  function Definition(expl: Cell): (d: string)
    ensures NotNa(expl) ==> d == expl.s
    ensures !NotNa(expl) ==> d == ""
  {
    match expl
    case Missing => ""
    case Str(s) => s
  }

  /** The row transform for the row at 0-based position `index`. */
  function Transform(row: Row, index: nat): (o: Outcome)
    ensures o.Skip? <==> !Accepted(row.word)
    ensures o.Skip? ==> o.displayRow == index + 2
    ensures o.Write? ==> row.word == Str(o.rec.word) && o.rec.word != ""
    ensures o.Write? ==> o.id == DocumentId(o.rec.word)
    ensures o.Write? ==> o.rec.definition == Definition(row.expl)
  {
    if Accepted(row.word) then
      Write(DocumentId(row.word.s), Record(row.word.s, Definition(row.expl)))
    else
      Skip(index + 2)
  }

  /** A row whose word is only spaces is not skipped: nothing is trimmed. */
  lemma WhitespaceWordAccepted(word: string, expl: Cell, index: nat)
    requires word != "" && forall i :: 0 <= i < |word| ==> word[i] == ' '
    ensures Transform(Row(Str(word), expl), index) ==
            Write(word, Record(word, Definition(expl)))
  {
    PlainWordKeepsItsName(word, expl, index);
  }

  /** A non-empty word without slashes is stored under itself. */
  lemma PlainWordKeepsItsName(word: string, expl: Cell, index: nat)
    requires word != "" && '/' !in word
    ensures Transform(Row(Str(word), expl), index) ==
            Write(word, Record(word, Definition(expl)))
  {
    DocumentIdFixedIff(word);
  }

  /** A word without slashes is its own identifier. */
  lemma ExamplePlainWord()
    ensures Transform(Row(Str("myocardial infarction"), Str("heart attack")), 0) ==
            Write("myocardial infarction", Record("myocardial infarction", "heart attack"))
  {
    PlainWordKeepsItsName("myocardial infarction", Str("heart attack"), 0);
  }

  /** A slash becomes a hyphen in the identifier only; a missing explanation
      gives an empty definition. */
  lemma ExampleSlashWord()
    ensures Transform(Row(Str("AM/PM"), Missing), 0) ==
            Write("AM-PM", Record("AM/PM", ""))
  {
    assert DocumentId("AM/PM") == "AM-PM";
  }

  /** An empty word at index 5 is skipped and announced as row 7: the
      header is line 1 of the file, the row at index 0 is line 2. */
  lemma ExampleEmptyWord()
    ensures Transform(Row(Str(""), Str("x")), 5) == Skip(7)
  {
    assert !Truthy(Str(""));
  }
}
