/**
  The bookkeeping of the training run: loading the question/answer table,
  assigning label ids to distinct answers, repairing the train/validation
  split so that every label is trained on, the id/label-name maps, and the
  metadata written beside the similarity index.
*/
module Training {
  import opened Wrappers
  import Nlp
  import VectorSearch

  // ---------------------------------------------------------------------------
  // Loading the dataset
  // ---------------------------------------------------------------------------

  /** A row of the CSV file as read; an empty cell (NaN) reads as None. */
  datatype RawRow = RawRow(
    question: Option<string>,
    answer: Option<string>,
    category: Option<string>,
    subcategory: Option<string>,
    tags: Option<string>)

  /** The CSV file: its header columns and its rows. */
  datatype Table = Table(columns: set<string>, rows: seq<RawRow>)

  /** A loaded row; an optional column is None exactly when the file has no such column. */
  datatype Row = Row(
    question: string,
    answer: string,
    category: Option<string>,
    subcategory: Option<string>,
    tags: Option<string>)

  datatype DatasetError =
    | DatasetNotFound                    // the file does not exist
    | MissingColumns(missing: set<string>)

  const RequiredColumns: set<string> := {"question", "answer"}

  /** A row that survives `dropna(subset=["question", "answer"])`. */
  predicate Complete(r: RawRow) {
    r.question.Some? && r.answer.Some?
  }

  /** `fillna("")` on an optional column the file has; a column it lacks stays absent. */
  function FillColumn(columns: set<string>, name: string, v: Option<string>): (r: Option<string>)
    ensures r.Some? <==> name in columns
    ensures r.Some? && v.Some? ==> r.value == v.value
    ensures r.Some? && v.None? ==> r.value == ""
  {
    if name in columns then Some(v.GetOr("")) else None
  }

  function CleanRow(columns: set<string>, r: RawRow): Row
    requires Complete(r)
  {
    Row(r.question.value, r.answer.value,
      FillColumn(columns, "category", r.category),
      FillColumn(columns, "subcategory", r.subcategory),
      FillColumn(columns, "tags", r.tags))
  }

  /** The positions of the complete rows, in increasing order. */
  function CompleteIndices(rows: seq<RawRow>): (ps: seq<nat>)
    ensures forall i :: 0 <= i < |ps| ==> ps[i] < |rows| && Complete(rows[ps[i]])
    ensures forall i, j :: 0 <= i < j < |ps| ==> ps[i] < ps[j]
    ensures forall k :: 0 <= k < |rows| && Complete(rows[k]) ==> k in ps
  {
    if rows == [] then []
    else
      var init := rows[..|rows| - 1];
      assert forall k :: 0 <= k < |init| ==> init[k] == rows[k];
      if Complete(rows[|rows| - 1]) then CompleteIndices(init) + [|rows| - 1] else CompleteIndices(init)
  }

  /** The rows left after dropping the incomplete ones, cleaned. */
  function DropIncomplete(columns: set<string>, rows: seq<RawRow>): (r: seq<Row>)
    ensures |r| == |CompleteIndices(rows)|
    ensures forall i :: 0 <= i < |r| ==> r[i] == CleanRow(columns, rows[CompleteIndices(rows)[i]])
  {
    if rows == [] then []
    else
      var init := rows[..|rows| - 1];
      assert forall k :: 0 <= k < |init| ==> init[k] == rows[k];
      var prev := DropIncomplete(columns, init);
      if Complete(rows[|rows| - 1]) then prev + [CleanRow(columns, rows[|rows| - 1])] else prev
  }

  /** `load_dataset`, from the file's parsed contents (None when the file does not exist). */
  function LoadDataset(file: Option<Table>): (r: Result<seq<Row>, DatasetError>)
    ensures file.None? ==> r == Failure(DatasetNotFound)
    ensures file.Some? ==> (r.Failure? <==> !(RequiredColumns <= file.value.columns))
    ensures file.Some? && r.Failure? ==>
      r.error == MissingColumns(RequiredColumns - file.value.columns) && r.error.missing != {}
  {
    match file
    case None => Failure(DatasetNotFound)
    case Some(t) =>
      var missing := RequiredColumns - t.columns;
      assert missing == {} ==> RequiredColumns <= t.columns by {
        if missing == {} {
          forall c | c in RequiredColumns ensures c in t.columns {
            assert c !in missing;
          }
        }
      }
      if missing != {} then Failure(MissingColumns(missing))
      else Success(DropIncomplete(t.columns, t.rows))
  }

  /**
    A loaded dataset is exactly the complete rows, in file order: every
    complete row is there, cleaned, and every loaded row comes from one.
  */
  lemma LoadDatasetRows(t: Table)
    requires RequiredColumns <= t.columns
    ensures LoadDataset(Some(t)).Success?
    ensures var r := LoadDataset(Some(t)).value;
      && |r| <= |t.rows|
      && (forall k :: 0 <= k < |t.rows| && Complete(t.rows[k]) ==> CleanRow(t.columns, t.rows[k]) in r)
      && (forall i :: 0 <= i < |r| ==>
            exists k :: 0 <= k < |t.rows| && Complete(t.rows[k]) && r[i] == CleanRow(t.columns, t.rows[k]))
  {
    var r := DropIncomplete(t.columns, t.rows);
    assert LoadDataset(Some(t)) == Success(r);
    var ps := CompleteIndices(t.rows);
    IncreasingBound(ps, |t.rows|);
    forall k | 0 <= k < |t.rows| && Complete(t.rows[k]) ensures CleanRow(t.columns, t.rows[k]) in r {
      var i :| 0 <= i < |ps| && ps[i] == k;
      assert r[i] == CleanRow(t.columns, t.rows[k]);
    }
    forall i | 0 <= i < |r|
      ensures exists k :: 0 <= k < |t.rows| && Complete(t.rows[k]) && r[i] == CleanRow(t.columns, t.rows[k])
    {
      var k := ps[i];
      assert 0 <= k < |t.rows| && Complete(t.rows[k]);
      assert r[i] == CleanRow(t.columns, t.rows[k]);
    }
  }

  /** A strictly increasing sequence of positions below `n` has at most `n` elements. */
  lemma {:induction false} IncreasingBound(ps: seq<nat>, n: nat)
    requires forall i :: 0 <= i < |ps| ==> ps[i] < n
    requires forall i, j :: 0 <= i < j < |ps| ==> ps[i] < ps[j]
    ensures |ps| <= n
  {
    if ps != [] {
      var init := ps[..|ps| - 1];
      var last := ps[|ps| - 1];
      assert forall i :: 0 <= i < |init| ==> init[i] < last;
      IncreasingBound(init, last);
    }
  }

  // ---------------------------------------------------------------------------
  // Label ids
  // ---------------------------------------------------------------------------

  predicate Distinct<T(==)>(s: seq<T>) {
    forall i, j :: 0 <= i < j < |s| ==> s[i] != s[j]
  }

  /** `df["answer"].unique()`: each distinct answer once, in order of first appearance. */
  function UniqueAnswers(rows: seq<Row>): (u: seq<string>)
    ensures Distinct(u)
    ensures |u| <= |rows|
  {
    if rows == [] then []
    else
      var prev := UniqueAnswers(rows[..|rows| - 1]);
      if rows[|rows| - 1].answer in prev then prev else prev + [rows[|rows| - 1].answer]
  }

  /** The distinct answers are exactly the answers some row carries. */
  lemma {:induction false} UniqueAnswersMembers(rows: seq<Row>)
    ensures forall a :: a in UniqueAnswers(rows) <==> exists k :: 0 <= k < |rows| && rows[k].answer == a
  {
    if rows != [] {
      var init := rows[..|rows| - 1];
      var a := rows[|rows| - 1].answer;
      UniqueAnswersMembers(init);
      assert forall k :: 0 <= k < |init| ==> init[k] == rows[k];
      forall x ensures x in UniqueAnswers(rows) <==> exists k :: 0 <= k < |rows| && rows[k].answer == x {
        if x in UniqueAnswers(rows) && x != a {
          var k :| 0 <= k < |init| && init[k].answer == x;
          assert rows[k].answer == x;
        }
        if exists k :: 0 <= k < |rows| && rows[k].answer == x {
          var k :| 0 <= k < |rows| && rows[k].answer == x;
          if k < |init| {
            assert init[k].answer == x;
          }
        }
      }
    }
  }

  /**
    First appearance order: of two distinct answers, the one with the
    smaller id occurs in the rows before any row of the other.
  */
  lemma {:induction false} UniqueAnswersFirstAppearance(rows: seq<Row>, i: nat, j: nat, k: nat)
    requires i < j < |UniqueAnswers(rows)|
    requires k < |rows| && rows[k].answer == UniqueAnswers(rows)[j]
    ensures exists k' :: 0 <= k' < k && rows[k'].answer == UniqueAnswers(rows)[i]
  {
    var u := UniqueAnswers(rows);
    var init := rows[..|rows| - 1];
    var prev := UniqueAnswers(init);
    UniqueAnswersMembers(init);
    assert forall m :: 0 <= m < |init| ==> init[m] == rows[m];
    if j < |prev| {
      assert u[i] == prev[i] && u[j] == prev[j];
      if k < |init| {
        UniqueAnswersFirstAppearance(init, i, j, k);
        var k' :| 0 <= k' < k && init[k'].answer == prev[i];
        assert rows[k'].answer == u[i];
      } else {
        assert prev[i] in prev;
        var k' :| 0 <= k' < |init| && init[k'].answer == prev[i];
        assert rows[k'].answer == u[i];
      }
    } else {
      // u[j] is the answer of the last row, which no earlier row has
      assert u == prev + [rows[|rows| - 1].answer];
      assert u[i] == prev[i] && prev[i] in prev;
      var k' :| 0 <= k' < |init| && init[k'].answer == prev[i];
      assert rows[k'].answer == u[i];
    }
  }

  /** The position of `x` in `s`. */
  function IndexOf(s: seq<string>, x: string): (i: nat)
    requires x in s
    ensures i < |s| && s[i] == x
  {
    if s[0] == x then 0 else 1 + IndexOf(s[1..], x)
  }

  /** `answer_to_id = {answer: idx for idx, answer in enumerate(unique_answers)}`. */
  function AnswerIds(u: seq<string>): (m: map<string, nat>)
    requires Distinct(u)
    ensures m.Keys == set a | a in u
    ensures forall i :: 0 <= i < |u| ==> m[u[i]] == i
  {
    map a | a in u :: IndexOf(u, a)
  }

  /** `df["answer"].map(answer_to_id)`: each row's label id. */
  function LabelIds(rows: seq<Row>): (ids: seq<nat>)
    ensures |ids| == |rows|
    ensures forall k :: 0 <= k < |rows| ==>
      ids[k] < |UniqueAnswers(rows)| && UniqueAnswers(rows)[ids[k]] == rows[k].answer
  {
    var u := UniqueAnswers(rows);
    var ids := AnswerIds(u);
    UniqueAnswersMembers(rows);
    assert forall k :: 0 <= k < |rows| ==> rows[k].answer in u;
    seq(|rows|, k requires 0 <= k < |rows| => ids[rows[k].answer])
  }

  /** The questions of the rows carrying `answer`, in row order. */
  function QuestionsFor(rows: seq<Row>, answer: string): (qs: seq<string>)
    ensures |qs| <= |rows|
  {
    if rows == [] then [] else QuestionOf(rows[0], answer) + QuestionsFor(rows[1..], answer)
  }

  /** A row's question if it carries `answer`. */
  function QuestionOf(r: Row, answer: string): (qs: seq<string>)
    ensures qs == [] || qs == [r.question]
    ensures qs != [] <==> r.answer == answer
  {
    if r.answer == answer then [r.question] else []
  }

  /** Every question listed for an answer is the question of a row carrying that answer. */
  lemma {:induction false} QuestionsForSource(rows: seq<Row>, answer: string, q: string)
    requires q in QuestionsFor(rows, answer)
    ensures exists k :: 0 <= k < |rows| && rows[k].answer == answer && rows[k].question == q
  {
    if rows[0].answer != answer || rows[0].question != q {
      QuestionsForSource(rows[1..], answer, q);
      var k :| 0 <= k < |rows[1..]| && rows[1..][k].answer == answer && rows[1..][k].question == q;
      assert rows[k + 1] == rows[1..][k];
    }
  }

  /** The questions of two runs of rows are those of the first run followed by those of the second. */
  lemma {:induction false} QuestionsForAppend(a: seq<Row>, b: seq<Row>, answer: string)
    ensures QuestionsFor(a + b, answer) == QuestionsFor(a, answer) + QuestionsFor(b, answer)
  {
    if a == [] {
      assert a + b == b;
    } else {
      var h, t := QuestionOf(a[0], answer), a[1..];
      assert (a + b)[0] == a[0] && (a + b)[1..] == t + b;
      QuestionsForAppend(t, b, answer);
      calc {
        QuestionsFor(a + b, answer);
        h + QuestionsFor(t + b, answer);
        h + (QuestionsFor(t, answer) + QuestionsFor(b, answer));
        (h + QuestionsFor(t, answer)) + QuestionsFor(b, answer);
      }
    }
  }


  /** An answer some row carries has at least one question. */
  lemma {:induction false} QuestionsForNonEmpty(rows: seq<Row>, answer: string, k: nat)
    requires k < |rows| && rows[k].answer == answer
    ensures QuestionsFor(rows, answer) != []
  {
    if rows[0].answer != answer {
      assert rows[k] == rows[1..][k - 1];
      QuestionsForNonEmpty(rows[1..], answer, k - 1);
    }
  }

  /** `group["question"].head(10)`: the first ten questions of an answer's rows. */
  function QuestionExamples(rows: seq<Row>, answer: string): (qs: seq<string>)
    ensures |qs| <= 10
    ensures qs <= QuestionsFor(rows, answer)
    ensures |qs| == 10 || qs == QuestionsFor(rows, answer)
  {
    var all := QuestionsFor(rows, answer);
    if |all| <= 10 then all else all[..10]
  }

  /** The metadata record of label `i`, whose answer is `u[i]`. */
  function LabelRecord(rows: seq<Row>, u: seq<string>, i: nat): (r: Nlp.LabelPayload)
    requires i < |u|
    ensures Nlp.FromDict(r).Success?
    ensures var m := Nlp.FromDict(r).value;
      m.id == i && m.labelName == Nlp.LabelName(i) && m.answer == u[i] && m.suggestedLinks == []
  {
    Nlp.LabelPayload(
      id := Some(i),
      labelName := Some(Nlp.LabelName(i)),
      answer := Some(u[i]),
      category := None,
      subcategory := None,
      tags := None,
      questionExamples := Some(QuestionExamples(rows, u[i])),
      suggestedLinks := Some([]))
  }

  /** The records of labels 0..n-1, in id order. */
  function RecordsUpTo(rows: seq<Row>, u: seq<string>, n: nat): (records: seq<Nlp.LabelPayload>)
    requires n <= |u|
    ensures |records| == n
    ensures forall i :: 0 <= i < n ==> records[i] == LabelRecord(rows, u, i)
  {
    if n == 0 then [] else RecordsUpTo(rows, u, n - 1) + [LabelRecord(rows, u, n - 1)]
  }

  /** The metadata records of all labels, sorted by id. */
  function LabelRecords(rows: seq<Row>): (records: seq<Nlp.LabelPayload>)
    ensures |records| == |UniqueAnswers(rows)|
  {
    RecordsUpTo(rows, UniqueAnswers(rows), |UniqueAnswers(rows)|)
  }

  /**
    `build_label_mapping`: each row's label id, and the metadata records,
    built one per distinct answer.
  */
  method BuildLabelMapping(rows: seq<Row>) returns (labelIds: seq<nat>, metadata: seq<Nlp.LabelPayload>)
    ensures labelIds == LabelIds(rows)
    ensures metadata == LabelRecords(rows)
  {
    var u := UniqueAnswers(rows);
    labelIds := LabelIds(rows);
    metadata := [];
    for i := 0 to |u|
      invariant metadata == RecordsUpTo(rows, u, i)
    {
      metadata := metadata + [LabelRecord(rows, u, i)];
    }
  }

  /**
    The records of a label mapping: ids are 0..n-1 in order; record `i` is
    named `LABEL_<i>`; there is exactly one record per distinct answer; a
    row's id is that of its answer's record; and each record holds up to ten
    of its answer's first questions (at least one) and no links.
  */
  lemma LabelRecordsProperties(rows: seq<Row>)
    ensures var md := LabelRecords(rows);
      && (forall i :: 0 <= i < |md| ==> md[i].id == Some(i as int) && md[i].labelName == Some(Nlp.LabelName(i)))
      && (forall i :: 0 <= i < |md| ==> md[i].answer.Some? && md[i].suggestedLinks == Some([]))
      && (forall i, j :: 0 <= i < j < |md| ==> md[i].answer != md[j].answer)
  {
    var u, md := UniqueAnswers(rows), LabelRecords(rows);
    assert forall i :: 0 <= i < |md| ==> md[i] == LabelRecord(rows, u, i);
  }

  /**
    A row's label id is that of its answer's record, and no other record
    carries that answer.
  */
  lemma RowIdsMatchRecords(rows: seq<Row>)
    ensures var ids, md := LabelIds(rows), LabelRecords(rows);
      && (forall k :: 0 <= k < |rows| ==> ids[k] < |md| && md[ids[k]].answer == Some(rows[k].answer))
      && (forall k, i :: 0 <= k < |rows| && 0 <= i < |md| && md[i].answer == Some(rows[k].answer) ==> ids[k] == i)
  {
    var u, ids, md := UniqueAnswers(rows), LabelIds(rows), LabelRecords(rows);
    assert forall i :: 0 <= i < |md| ==> md[i].answer == Some(u[i]);
  }

  /** Each record's question examples are the first (at most ten, at least one) questions of its answer's rows. */
  lemma LabelRecordExamples(rows: seq<Row>, i: nat)
    requires i < |LabelRecords(rows)|
    ensures var r := LabelRecords(rows)[i];
      && r.answer.Some? && r.questionExamples.Some?
      && 1 <= |r.questionExamples.value| <= 10
      && r.questionExamples.value <= QuestionsFor(rows, r.answer.value)
      && (|r.questionExamples.value| == 10 || r.questionExamples.value == QuestionsFor(rows, r.answer.value))
  {
    var u := UniqueAnswers(rows);
    UniqueAnswersMembers(rows);
    assert u[i] in u;
    var k :| 0 <= k < |rows| && rows[k].answer == u[i];
    QuestionsForNonEmpty(rows, u[i], k);
  }

  /** The label metadata the service reads back from the records of a training run. */
  function TrainedMetadata(rows: seq<Row>): seq<Nlp.LabelMetadata> {
    var u := UniqueAnswers(rows);
    seq(|u|, i requires 0 <= i < |u| =>
      Nlp.LabelMetadata(i, Nlp.LabelName(i), u[i], None, None, [], QuestionExamples(rows, u[i]), []))
  }

  /** Every record of a training run parses, each to its own metadata. */
  lemma ParseTrainedRecords(rows: seq<Row>)
    ensures Nlp.ParseLabels(LabelRecords(rows)) == Success(TrainedMetadata(rows))
  {
    var records := LabelRecords(rows);
    var r := Nlp.ParseLabels(records);
    Nlp.ParseLabelsSucceeds(records);
    assert forall k :: 0 <= k < |records| ==> records[k].id.Some?;
    assert r.Success?;
    Nlp.ParseLabelsEach(records);
    var expected := TrainedMetadata(rows);
    forall k | 0 <= k < |records| ensures r.value[k] == expected[k] {
      assert Nlp.FromDict(records[k]) == Success(r.value[k]);
    }
    assert |r.value| == |expected|;
    assert r.value == expected;
  }

  /** The label document a training run writes: an object with `labels` (the records) and `metrics`. */
  function TrainedDocument(rows: seq<Row>): Nlp.LabelDocument {
    Nlp.ObjectDoc(Some(LabelRecords(rows)), 2)
  }

  /** The service loads the label document of every training run. */
  lemma TrainedCatalogLoads(rows: seq<Row>)
    ensures Nlp.LoadCatalog(TrainedDocument(rows)) == Success(Nlp.IdToMetadata(TrainedMetadata(rows)))
  {
    assert Nlp.LabelEntries(TrainedDocument(rows)) == Success(LabelRecords(rows));
    ParseTrainedRecords(rows);
  }

  /**
    The catalog loaded from the records of a training run has an entry for
    exactly the ids 0..n-1, each with its answer, its label name, its
    question examples and no links.
  */
  lemma TrainedCatalog(rows: seq<Row>, catalog: map<int, Nlp.LabelMetadata>)
    requires catalog == Nlp.IdToMetadata(TrainedMetadata(rows))
    ensures forall id :: id in catalog <==> 0 <= id < |UniqueAnswers(rows)|
    ensures forall i :: 0 <= i < |UniqueAnswers(rows)| ==>
      && catalog[i].answer == UniqueAnswers(rows)[i]
      && catalog[i].labelName == Nlp.LabelName(i)
      && catalog[i].questionExamples == QuestionExamples(rows, UniqueAnswers(rows)[i])
      && catalog[i].suggestedLinks == []
  {
    var metas := TrainedMetadata(rows);
    assert forall k :: 0 <= k < |metas| ==> metas[k].id == k;
    Nlp.IdToMetadataNumbered(metas);
  }

  // ---------------------------------------------------------------------------
  // Repairing the train/validation split
  // ---------------------------------------------------------------------------

  /** The positions of all rows of the frame, in order. */
  function AllRows(n: nat): (s: seq<nat>)
    ensures |s| == n && forall i :: 0 <= i < n ==> s[i] == i
  {
    seq(n, i => i)
  }

  /** Train and validation together hold every row exactly once. */
  predicate IsPartition(n: nat, train: seq<nat>, eval: seq<nat>) {
    multiset(train + eval) == multiset(AllRows(n))
  }

  /** Row `p` exists and carries label `l`. */
  predicate HasLabel(labels: seq<nat>, p: nat, l: nat) {
    p < |labels| && labels[p] == l
  }

  /** The labels of a set of rows (`set(train_df["label_id"])`). */
  function LabelsIn(labels: seq<nat>, rows: seq<nat>): set<nat> {
    set p | p in rows && p < |labels| :: labels[p]
  }

  /** The first of `rows` carrying `target`, or `|rows|` when none does. */
  function FirstWithLabel(labels: seq<nat>, rows: seq<nat>, target: nat): (c: nat)
    ensures c <= |rows|
    ensures c < |rows| ==> HasLabel(labels, rows[c], target)
    ensures forall i :: 0 <= i < c ==> !HasLabel(labels, rows[i], target)
  {
    if rows == [] then 0
    else if HasLabel(labels, rows[0], target) then 0
    else 1 + FirstWithLabel(labels, rows[1..], target)
  }

  /** Row `p` exists and its label occurs more than once in the frame. */
  predicate HasRepeatedLabel(labels: seq<nat>, p: nat) {
    p < |labels| && multiset(labels)[labels[p]] > 1
  }

  /** The first of `rows` whose label occurs more than once, or `|rows|` when none does. */
  function FirstRepeated(labels: seq<nat>, rows: seq<nat>): (c: nat)
    ensures c <= |rows|
    ensures c < |rows| ==> HasRepeatedLabel(labels, rows[c])
    ensures forall i :: 0 <= i < c ==> !HasRepeatedLabel(labels, rows[i])
  {
    if rows == [] then 0
    else if HasRepeatedLabel(labels, rows[0]) then 0
    else 1 + FirstRepeated(labels, rows[1..])
  }

  /** In a partition, every row of the frame is in train or in validation. */
  lemma PartitionHolds(n: nat, train: seq<nat>, eval: seq<nat>, p: nat)
    requires IsPartition(n, train, eval) && p < n
    ensures p in train || p in eval
  {
    assert AllRows(n)[p] == p;
    assert p in multiset(train + eval);
  }

  /** In a partition, every row position is a row of the frame. */
  lemma PartitionBounds(n: nat, train: seq<nat>, eval: seq<nat>)
    requires IsPartition(n, train, eval)
    ensures forall p :: p in train + eval ==> p < n
  {
    forall p | p in train + eval ensures p < n {
      assert p in multiset(AllRows(n));
    }
  }

  /** A label of the frame is among the train labels or carried by some validation row. */
  lemma LabelPlaced(labels: seq<nat>, train: seq<nat>, eval: seq<nat>, target: nat)
    requires IsPartition(|labels|, train, eval) && target in labels
    ensures target in LabelsIn(labels, train) || FirstWithLabel(labels, eval, target) < |eval|
  {
    var k :| 0 <= k < |labels| && labels[k] == target;
    PartitionHolds(|labels|, train, eval, k);
    if k !in train {
      var i :| 0 <= i < |eval| && eval[i] == k;
      assert HasLabel(labels, eval[i], target);
    }
  }

  /** A label occurring more than once occurs at a second position. */
  lemma OtherOccurrence(labels: seq<nat>, p: nat)
    requires HasRepeatedLabel(labels, p)
    ensures exists k :: 0 <= k < |labels| && k != p && labels[k] == labels[p]
  {
    var l := labels[p];
    var pre, suf := labels[..p], labels[p + 1..];
    assert labels == pre + [l] + suf;
    assert multiset(labels)[l] == multiset(pre)[l] + 1 + multiset(suf)[l];
    if l in pre {
      var k :| 0 <= k < |pre| && pre[k] == l;
      assert labels[k] == l;
    } else {
      assert l in suf;
      var k :| 0 <= k < |suf| && suf[k] == l;
      assert labels[p + 1 + k] == l;
    }
  }

  /** Removing the element at `c` keeps every other element. */
  lemma RemoveKeepsOthers(s: seq<nat>, c: nat, x: nat)
    requires c < |s| && x in s && x != s[c]
    ensures x in s[..c] + s[c + 1..]
  {
    var i :| 0 <= i < |s| && s[i] == x;
    if i < c {
      assert s[..c][i] == x;
    } else {
      assert s[c + 1..][i - c - 1] == x;
    }
  }

  /** Moving validation row `c` to the end of train keeps the partition. */
  lemma MoveKeepsPartition(n: nat, train: seq<nat>, eval: seq<nat>, c: nat)
    requires IsPartition(n, train, eval) && c < |eval|
    ensures IsPartition(n, train + [eval[c]], eval[..c] + eval[c + 1..])
  {
    assert eval == eval[..c] + [eval[c]] + eval[c + 1..];
    assert train + eval == train + eval[..c] + [eval[c]] + eval[c + 1..];
    assert train + [eval[c]] + (eval[..c] + eval[c + 1..]) == train + [eval[c]] + eval[..c] + eval[c + 1..];
  }

  /** The labels of train grow by the label of the appended row. */
  lemma LabelsInAppend(labels: seq<nat>, train: seq<nat>, p: nat)
    requires p < |labels|
    ensures LabelsIn(labels, train + [p]) == LabelsIn(labels, train) + {labels[p]}
  {
    var l := LabelsIn(labels, train + [p]);
    var r := LabelsIn(labels, train) + {labels[p]};
    forall x | x in l ensures x in r {
      var q :| q in train + [p] && q < |labels| && labels[q] == x;
    }
    forall x | x in r ensures x in l {
      if x == labels[p] {
        assert p in train + [p];
      } else {
        var q :| q in train && q < |labels| && labels[q] == x;
        assert q in train + [p];
      }
    }
  }

  /**
    The loop of `prepare_datasets` over the labels of `labelOrder`: a label
    missing from train gets its first validation row moved over. Rows are
    only moved; afterwards every label of `labelOrder` is in train; and when
    train already held every label, nothing moves.
  */
  method MoveMissingLabels(labels: seq<nat>, train0: seq<nat>, eval0: seq<nat>, labelOrder: seq<nat>)
    returns (train: seq<nat>, eval: seq<nat>)
    requires IsPartition(|labels|, train0, eval0)
    requires forall l :: l in labelOrder ==> l in labels
    ensures IsPartition(|labels|, train, eval)
    ensures forall l :: l in labelOrder ==> l in LabelsIn(labels, train)
    ensures (forall l :: l in labelOrder ==> l in LabelsIn(labels, train0)) ==> train == train0 && eval == eval0
  {
    train, eval := train0, eval0;
    var inTrain := LabelsIn(labels, train);
    ghost var allPresent := forall l :: l in labelOrder ==> l in LabelsIn(labels, train0);
    for t := 0 to |labelOrder|
      invariant IsPartition(|labels|, train, eval)
      invariant inTrain == LabelsIn(labels, train)
      invariant forall s :: 0 <= s < t ==> labelOrder[s] in inTrain
      invariant allPresent ==> train == train0 && eval == eval0
    {
      var lbl := labelOrder[t];
      if lbl !in inTrain {
        assert lbl in labelOrder;
        assert !allPresent;
        var c := FirstWithLabel(labels, eval, lbl);
        if c < |eval| {
          var idx := eval[c];
          MoveKeepsPartition(|labels|, train, eval, c);
          LabelsInAppend(labels, train, idx);
          train := train + [idx];
          eval := eval[..c] + eval[c + 1..];
          inTrain := inTrain + {lbl};
        } else {
          // every label of the frame is in train or in validation, so this
          // branch (a label found in neither) is never taken
          LabelPlaced(labels, train, eval, lbl);
          assert false;
        }
      }
    }
  }

  /** Taking row `c` out of a train set that holds every row leaves a partition with that row in validation. */
  lemma TakeOutKeepsPartition(n: nat, train: seq<nat>, c: nat)
    requires IsPartition(n, train, []) && c < |train|
    ensures IsPartition(n, train[..c] + train[c + 1..], [train[c]])
  {
    assert train + [] == train;
    assert train == train[..c] + [train[c]] + train[c + 1..];
  }

  /** Taking out a row whose label occurs twice keeps every label in train. */
  lemma TakeOutKeepsLabels(labels: seq<nat>, train: seq<nat>, c: nat)
    requires IsPartition(|labels|, train, []) && c < |train| && HasRepeatedLabel(labels, train[c])
    ensures forall k :: 0 <= k < |labels| ==> labels[k] in LabelsIn(labels, train[..c] + train[c + 1..])
  {
    var p := train[c];
    OtherOccurrence(labels, p);
    forall k | 0 <= k < |labels| ensures labels[k] in LabelsIn(labels, train[..c] + train[c + 1..]) {
      var q := k;
      if k == p {
        q :| 0 <= q < |labels| && q != p && labels[q] == labels[p];
      }
      PartitionHolds(|labels|, train, [], q);
      assert q !in [];
      RemoveKeepsOthers(train, c, q);
    }
  }

  /** When train holds every row and none has a label occurring twice, no label occurs twice. */
  lemma NoRepeatedLabel(labels: seq<nat>, train: seq<nat>)
    requires IsPartition(|labels|, train, [])
    requires forall i :: 0 <= i < |train| ==> !HasRepeatedLabel(labels, train[i])
    ensures forall l :: multiset(labels)[l] <= 1
  {
    forall k | 0 <= k < |labels| ensures !HasRepeatedLabel(labels, k) {
      PartitionHolds(|labels|, train, [], k);
      var i :| 0 <= i < |train| && train[i] == k;
    }
    forall l ensures multiset(labels)[l] <= 1 {
      if l in labels {
        var k :| 0 <= k < |labels| && labels[k] == l;
        assert !HasRepeatedLabel(labels, k);
      } else {
        assert l !in multiset(labels);
      }
    }
  }

  /**
    The fallback of `prepare_datasets` for an empty validation set: the
    first train row whose label occurs more than once in the frame becomes
    the validation set. Rows are only moved and no label leaves train; and
    validation stays empty only when no label occurs twice.
  */
  method RefillValidation(labels: seq<nat>, train0: seq<nat>, eval0: seq<nat>)
    returns (train: seq<nat>, eval: seq<nat>)
    requires IsPartition(|labels|, train0, eval0)
    requires forall k :: 0 <= k < |labels| ==> labels[k] in LabelsIn(labels, train0)
    ensures IsPartition(|labels|, train, eval)
    ensures forall k :: 0 <= k < |labels| ==> labels[k] in LabelsIn(labels, train)
    ensures !(|eval0| == 0 && |train0| > 1) ==> train == train0 && eval == eval0
    ensures |eval0| == 0 && |train0| > 1 && eval == [] ==> forall l :: multiset(labels)[l] <= 1
  {
    train, eval := train0, eval0;
    if |eval| == 0 && |train| > 1 {
      assert train + eval == train;
      var c := FirstRepeated(labels, train);
      if c < |train| {
        var p := train[c];
        var rest := train[..c] + train[c + 1..];
        TakeOutKeepsPartition(|labels|, train, c);
        TakeOutKeepsLabels(labels, train, c);
        eval := [p];
        train := rest;
      } else {
        NoRepeatedLabel(labels, train);
      }
    }
  }

  /**
    The split repair of `prepare_datasets`. `labels` holds each row's label
    id; `randomTrain`/`randomEval` is the random split taken when there are
    at least two rows; `labelOrder` is the order in which `value_counts`
    lists the distinct labels. Rows are only moved, so train and validation
    always partition the rows; afterwards every label is trained on; with
    fewer than two rows everything is train; and validation is left empty
    (with two rows or more) only when no label occurs twice.
  */
  method PrepareSplit(labels: seq<nat>, randomTrain: seq<nat>, randomEval: seq<nat>, labelOrder: seq<nat>)
    returns (train: seq<nat>, eval: seq<nat>)
    requires |labels| >= 2 ==> IsPartition(|labels|, randomTrain, randomEval)
    requires forall l :: l in labelOrder <==> l in labels
    ensures IsPartition(|labels|, train, eval)
    ensures forall k :: 0 <= k < |labels| ==> labels[k] in LabelsIn(labels, train)
    ensures |labels| < 2 ==> train == AllRows(|labels|) && eval == []
    ensures |labels| >= 2 && eval == [] ==> forall l :: multiset(labels)[l] <= 1
  {
    var train0, eval0;
    if |labels| < 2 {
      train0, eval0 := AllRows(|labels|), [];
      assert train0 + eval0 == AllRows(|labels|);
      forall l | l in labelOrder ensures l in LabelsIn(labels, train0) {
        var k :| 0 <= k < |labels| && labels[k] == l;
        assert k in train0;
      }
    } else {
      train0, eval0 := randomTrain, randomEval;
    }
    var train1, eval1 := MoveMissingLabels(labels, train0, eval0, labelOrder);
    assert forall k :: 0 <= k < |labels| ==> labels[k] in labelOrder;
    train, eval := RefillValidation(labels, train1, eval1);
  }

  // ---------------------------------------------------------------------------
  // Label names
  // ---------------------------------------------------------------------------

  /** `id2label`: each label id of the frame to `LABEL_<id>`. */
  function Id2Label(labels: seq<nat>): (m: map<int, string>)
    ensures forall id :: id in m <==> id >= 0 && id in labels
    ensures forall id :: id in m ==> m[id] == Nlp.LabelName(id)
  {
    map id: int | 0 <= id && id in labels :: Nlp.LabelName(id)
  }

  /** `label2id = {label: idx for idx, label in id2label.items()}`. */
  function Label2Id(id2label: map<int, string>): (m: map<string, int>)
    requires forall id :: id in id2label ==> id2label[id] == Nlp.LabelName(id)
    ensures forall name :: name in m <==> exists id :: id in id2label && id2label[id] == name
  {
    Nlp.LabelNameInjective();
    map id | id in id2label :: id2label[id] := id
  }

  /** `label2id` is the exact inverse of `id2label`. */
  lemma LabelMapsInverse(labels: seq<nat>)
    ensures var id2label := Id2Label(labels);
      var label2id := Label2Id(id2label);
      && (forall id :: id in id2label ==> id2label[id] in label2id && label2id[id2label[id]] == id)
      && (forall name :: name in label2id ==> label2id[name] in id2label && id2label[label2id[name]] == name)
  {
    Nlp.LabelNameInjective();
  }

  // ---------------------------------------------------------------------------
  // Metadata of the similarity index
  // ---------------------------------------------------------------------------

  /** The metadata entry of one row: its question and answer, its category and subcategory when the file has them, no links. */
  function VectorEntry(r: Row): (e: VectorSearch.RowMetadata)
    ensures forall score ::
      VectorSearch.Hit(e, score) == VectorSearch.SimilarQuestion(r.question, r.answer, r.category, r.subcategory, score, [], [])
  {
    VectorSearch.RowMetadata(Some(r.question), Some(r.answer), r.category, r.subcategory, None, Some([]))
  }

  /** The metadata loop of `build_vector_store`: one entry per row, in row order. */
  method BuildVectorMetadata(rows: seq<Row>) returns (metadata: seq<VectorSearch.RowMetadata>)
    ensures |metadata| == |rows|
    ensures forall k :: 0 <= k < |rows| ==> metadata[k] == VectorEntry(rows[k])
  {
    metadata := [];
    for k := 0 to |rows|
      invariant |metadata| == k
      invariant forall j :: 0 <= j < k ==> metadata[j] == VectorEntry(rows[j])
    {
      metadata := metadata + [VectorEntry(rows[k])];
    }
  }

  /**
    A search hit on row `k` of the index built from `rows` reports that
    row's question, answer, category and subcategory, no tags and no links.
  */
  lemma VectorEntryReadBack(rows: seq<Row>, metadata: seq<VectorSearch.RowMetadata>, k: nat, score: real)
    requires |metadata| == |rows| && forall j :: 0 <= j < |rows| ==> metadata[j] == VectorEntry(rows[j])
    requires k < |rows|
    ensures var h := VectorSearch.Hit(metadata[k], score);
      && h.question == rows[k].question && h.answer == rows[k].answer
      && h.category == rows[k].category && h.subcategory == rows[k].subcategory
      && h.tags == [] && h.suggestedLinks == [] && h.score == score
  {
  }
}
