/**
  The answer engine: label metadata parsed from the training run's label
  mapping, the id-to-metadata catalog, and `predict`, which resolves the
  classifier's best label and merges in the similarity neighbours' questions
  and links.
*/
module Nlp {
  import opened Wrappers
  import Preprocessing
  import VectorSearch
  import Decimal

  /** One entry of the label mapping document as parsed; a key that is absent reads as None. */
  datatype LabelPayload = LabelPayload(
    id: Option<int>,
    labelName: Option<string>,
    answer: Option<string>,
    category: Option<string>,
    subcategory: Option<string>,
    tags: Option<seq<string>>,
    questionExamples: Option<seq<string>>,
    suggestedLinks: Option<seq<string>>)

  /** `LabelMetadata`. */
  datatype LabelMetadata = LabelMetadata(
    id: int,
    labelName: string,
    answer: string,
    category: Option<string>,
    subcategory: Option<string>,
    tags: seq<string>,
    questionExamples: seq<string>,
    suggestedLinks: seq<string>)

  datatype LoadError =
    | MissingId            // `int(None)` raises when an entry has no id
    | NotALabelList        // the document's labels are not a list of objects

  /** The default label name of an id: `f"LABEL_{id}"`. */
  function LabelName(id: int): string {
    "LABEL_" + Decimal.IntToString(id)
  }

  /** Label names of different ids differ. */
  lemma LabelNameInjective()
    ensures forall a, b :: LabelName(a) == LabelName(b) ==> a == b
  {
    forall a, b | LabelName(a) == LabelName(b) ensures a == b {
      assert Decimal.IntToString(a) == LabelName(a)[6..];
      assert Decimal.IntToString(b) == LabelName(b)[6..];
      Decimal.IntToStringInjective(a, b);
    }
  }

  /** `LabelMetadata.from_dict`: an entry without an id is an error; other missing keys take defaults. */
  function FromDict(p: LabelPayload): (r: Result<LabelMetadata, LoadError>)
    ensures r.Failure? <==> p.id.None?
    ensures r.Failure? ==> r.error == MissingId
    ensures r.Success? ==> r.value.id == p.id.value
  {
    match p.id
    case None => Failure(MissingId)
    case Some(id) =>
      Success(LabelMetadata(
        id, p.labelName.GetOr(LabelName(id)), p.answer.GetOr(""), p.category, p.subcategory,
        p.tags.GetOr([]), p.questionExamples.GetOr([]), p.suggestedLinks.GetOr([])))
  }

  /** An entry that writes every key reads back as the metadata it was written from. */
  function FullPayload(m: LabelMetadata): LabelPayload {
    LabelPayload(Some(m.id), Some(m.labelName), Some(m.answer), m.category, m.subcategory,
      Some(m.tags), Some(m.questionExamples), Some(m.suggestedLinks))
  }

  lemma FromDictRoundTrip(m: LabelMetadata)
    ensures FromDict(FullPayload(m)) == Success(m)
  {
  }

  /**
    Each key is read on its own: a present value is kept, and whatever else
    the entry holds, a missing name reads as `LABEL_<id>`, a missing answer as
    "", a missing category as None and a missing list as the empty list.
  */
  lemma FromDictDefaults(p: LabelPayload)
    requires p.id.Some?
    ensures FromDict(p).Success?
    ensures FromDict(p).value.labelName == (if p.labelName.Some? then p.labelName.value else LabelName(p.id.value))
    ensures FromDict(p).value.answer == (if p.answer.Some? then p.answer.value else "")
    ensures FromDict(p).value.category == p.category && FromDict(p).value.subcategory == p.subcategory
    ensures FromDict(p).value.tags == (if p.tags.Some? then p.tags.value else [])
    ensures FromDict(p).value.questionExamples == (if p.questionExamples.Some? then p.questionExamples.value else [])
    ensures FromDict(p).value.suggestedLinks == (if p.suggestedLinks.Some? then p.suggestedLinks.value else [])
  {
  }

  /**
    The parsed label mapping document: a JSON object (with or without a
    `labels` key; `keyCount` is its number of keys) or a top-level array.
  */
  datatype LabelDocument =
    | ObjectDoc(labels: Option<seq<LabelPayload>>, keyCount: nat)
    | ArrayDoc(items: seq<LabelPayload>)

  /**
    `payload.get("labels", payload)` as written: a top-level array has no
    `.get` and raises, and an object without `labels` is iterated over its
    keys (strings, which `from_dict` cannot read) unless it is empty.
  */
  function LabelEntriesAsWritten(doc: LabelDocument): (r: Result<seq<LabelPayload>, LoadError>)
    ensures doc.ArrayDoc? ==> r == Failure(NotALabelList)
    ensures doc.ObjectDoc? && doc.labels.Some? ==> r == Success(doc.labels.value)
  {
    match doc
    case ArrayDoc(_) => Failure(NotALabelList)
    case ObjectDoc(Some(ls), _) => Success(ls)
    case ObjectDoc(None, n) => if n == 0 then Success([]) else Failure(NotALabelList)
  }

  /** The entries of a label mapping, read from a `labels` key or from a top-level array. */
  function LabelEntries(doc: LabelDocument): (r: Result<seq<LabelPayload>, LoadError>)
    ensures doc.ArrayDoc? ==> r == Success(doc.items)
    ensures doc.ObjectDoc? ==> r == LabelEntriesAsWritten(doc)
  {
    match doc
    case ArrayDoc(items) => Success(items)
    case ObjectDoc(_, _) => LabelEntriesAsWritten(doc)
  }

  /** A document whose top level is the list of labels is rejected by the code as written. */
  lemma TopLevelArrayRejectedAsWritten(entry: LabelPayload)
    ensures LabelEntriesAsWritten(ArrayDoc([entry])).Failure?
    ensures LabelEntries(ArrayDoc([entry])) == Success([entry])
  {
  }

  /** `[LabelMetadata.from_dict(item) for item in labels]`: the first entry without an id aborts the load. */
  function ParseLabels(entries: seq<LabelPayload>): (r: Result<seq<LabelMetadata>, LoadError>)
    ensures r.Success? ==> |r.value| == |entries|
  {
    if entries == [] then Success([])
    else
      match FromDict(entries[0])
      case Failure(e) => Failure(e)
      case Success(m) =>
        var rest := ParseLabels(entries[1..]);
        if rest.Failure? then Failure(rest.error) else Success([m] + rest.value)
  }

  /** The labels load exactly when every entry has an id. */
  lemma {:induction false} ParseLabelsSucceeds(entries: seq<LabelPayload>)
    ensures ParseLabels(entries).Success? <==> forall k :: 0 <= k < |entries| ==> entries[k].id.Some?
  {
    if entries != [] {
      var t := entries[1..];
      ParseLabelsSucceeds(t);
      assert forall k :: 1 <= k < |entries| ==> entries[k] == t[k - 1];
    }
  }

  /** Loaded labels hold, in order, what `from_dict` makes of each entry. */
  lemma {:induction false} ParseLabelsEach(entries: seq<LabelPayload>)
    requires ParseLabels(entries).Success?
    ensures forall k :: 0 <= k < |entries| ==> FromDict(entries[k]) == Success(ParseLabels(entries).value[k])
  {
    if entries != [] {
      var t := entries[1..];
      ParseLabelsEach(t);
      var m, rest := FromDict(entries[0]).value, ParseLabels(t).value;
      assert ParseLabels(entries).value == [m] + rest;
      forall k | 1 <= k < |entries| ensures FromDict(entries[k]) == Success(ParseLabels(entries).value[k]) {
        assert entries[k] == t[k - 1] && ([m] + rest)[k] == rest[k - 1];
      }
    }
  }

  /** `{meta.id: meta for meta in label_metadata}`: a later entry with the same id replaces an earlier one. */
  function IdToMetadata(metas: seq<LabelMetadata>): (m: map<int, LabelMetadata>)
    ensures forall id :: id in m <==> exists k :: 0 <= k < |metas| && metas[k].id == id
    ensures forall k :: 0 <= k < |metas| ==> metas[k].id in m
    ensures forall id :: id in m ==> m[id].id == id
  {
    if metas == [] then map[]
    else
      var init := metas[..|metas| - 1];
      var last := metas[|metas| - 1];
      assert forall k :: 0 <= k < |init| ==> init[k] == metas[k];
      IdToMetadata(init)[last.id := last]
  }

  /** Each id maps to the last entry that carries it. */
  lemma {:induction false} LastEntryWins(metas: seq<LabelMetadata>, k: nat)
    requires k < |metas|
    requires forall j :: k < j < |metas| ==> metas[j].id != metas[k].id
    ensures IdToMetadata(metas)[metas[k].id] == metas[k]
  {
    if k < |metas| - 1 {
      var init := metas[..|metas| - 1];
      assert init[k] == metas[k];
      LastEntryWins(init, k);
    }
  }

  /** Entries numbered 0..n-1 in order give a catalog with exactly those ids, each mapping to its entry. */
  lemma IdToMetadataNumbered(metas: seq<LabelMetadata>)
    requires forall k :: 0 <= k < |metas| ==> metas[k].id == k
    ensures forall id :: id in IdToMetadata(metas) <==> 0 <= id < |metas|
    ensures forall k :: 0 <= k < |metas| ==> IdToMetadata(metas)[k] == metas[k]
  {
    var m := IdToMetadata(metas);
    forall id ensures id in m <==> 0 <= id < |metas| {
      if id in m {
        var k :| 0 <= k < |metas| && metas[k].id == id;
      }
      if 0 <= id < |metas| {
        assert metas[id].id in m;
      }
    }
    forall k | 0 <= k < |metas| ensures m[k] == metas[k] {
      LastEntryWins(metas, k);
    }
  }

  /** The catalog the service builds from a label mapping document. */
  function LoadCatalog(doc: LabelDocument): (r: Result<map<int, LabelMetadata>, LoadError>)
    ensures LabelEntries(doc).Failure? ==> r == Failure(LabelEntries(doc).error)
    ensures r.Success? ==> forall id :: id in r.value ==> r.value[id].id == id
  {
    match LabelEntries(doc)
    case Failure(e) => Failure(e)
    case Success(entries) =>
      match ParseLabels(entries)
      case Failure(e) => Failure(e)
      case Success(metas) => Success(IdToMetadata(metas))
  }

  /**
    A catalog loads exactly when the entries can be read and each has an
    id, and then it holds every entry's id.
  */
  lemma LoadCatalogIds(doc: LabelDocument)
    ensures LoadCatalog(doc).Success? <==>
      LabelEntries(doc).Success? && forall k :: 0 <= k < |LabelEntries(doc).value| ==> LabelEntries(doc).value[k].id.Some?
    ensures LoadCatalog(doc).Success? ==>
      forall k :: 0 <= k < |LabelEntries(doc).value| ==> LabelEntries(doc).value[k].id.value in LoadCatalog(doc).value
  {
    if LabelEntries(doc).Success? {
      var entries := LabelEntries(doc).value;
      ParseLabelsSucceeds(entries);
      if ParseLabels(entries).Success? {
        ParseLabelsEach(entries);
        var metas := ParseLabels(entries).value;
        assert forall k :: 0 <= k < |entries| ==> entries[k].id == Some(metas[k].id);
      }
    }
  }

  /** The classifier's verdict on a normalised text: its best label and that label's probability. */
  datatype Inference = Inferred(index: int, confidence: real) | InferenceFailed

  /**
    A loaded service. `classify` stands for the tokenizer, the fine-tuned
    model, softmax and `topk`; `idToMetadata` is the label catalog.
  */
  datatype NLPService = NLPService(
    unicode: Preprocessing.UnicodeLibrary,
    classify: string -> Inference,
    idToMetadata: map<int, LabelMetadata>,
    vectorStore: Option<VectorSearch.VectorStore>)

  ghost predicate Valid(service: NLPService) {
    service.vectorStore.Some? ==> VectorSearch.RowAligned(service.vectorStore.value)
  }

  /** `GeneratedAnswer`. */
  datatype GeneratedAnswer = GeneratedAnswer(
    text: string,
    category: Option<string>,
    subcategory: Option<string>,
    confidence: real,
    similarQuestions: seq<string>,
    suggestedLinks: seq<string>)

  datatype PredictError =
    | InferenceFailure          // the model could not process the input
    | MissingLabel(id: int)     // the catalog has no entry for the model's best label

  /** The similarity threshold `search` uses when `predict` calls it. */
  const ScoreThreshold: real := 0.3

  /**
    Inference on the normalised text. With `top_k = 0`, `torch.topk` returns
    empty tensors and reading the best label (`top_indices[0][0]`) raises
    `IndexError`; a negative `k` makes `torch.topk` itself raise. Either way
    a `top_k` below 1 yields no inference.
  */
  function Infer(service: NLPService, text: string, topK: int): (r: Inference)
    ensures topK < 1 ==> r == InferenceFailed
  {
    if topK < 1 then InferenceFailed else service.classify(Preprocessing.Normalize(service.unicode, text))
  }

  /** The model sees only the normalised text: normalising a question first changes nothing. */
  lemma InferNormalizedText(service: NLPService, text: string, topK: int)
    requires Preprocessing.Faithful(service.unicode)
    ensures Infer(service, Preprocessing.Normalize(service.unicode, text), topK) == Infer(service, text, topK)
  {
    Preprocessing.NormalizeIdempotent(service.unicode, text);
  }

  /** The neighbours' links, neighbour by neighbour, each neighbour's links in order. */
  function AllLinks(neighbours: seq<VectorSearch.SimilarQuestion>): seq<string> {
    if neighbours == [] then []
    else AllLinks(neighbours[..|neighbours| - 1]) + neighbours[|neighbours| - 1].suggestedLinks
  }

  /** The links of one more neighbour come after those of the ones before it. */
  lemma AllLinksStep(neighbours: seq<VectorSearch.SimilarQuestion>, i: nat)
    requires i < |neighbours|
    ensures AllLinks(neighbours[..i + 1]) == AllLinks(neighbours[..i]) + neighbours[i].suggestedLinks
  {
    assert neighbours[..i + 1][..i] == neighbours[..i];
  }

  /** Appending each of `xs` in turn to `links` unless it is already there. */
  function AppendAbsent(links: seq<string>, xs: seq<string>): seq<string> {
    if xs == [] then links
    else
      var prev := AppendAbsent(links, xs[..|xs| - 1]);
      if xs[|xs| - 1] in prev then prev else prev + [xs[|xs| - 1]]
  }

  /** One more link is appended only when it is not there yet. */
  lemma AppendAbsentStep(links: seq<string>, xs: seq<string>, x: string)
    ensures AppendAbsent(links, xs + [x]) ==
      if x in AppendAbsent(links, xs) then AppendAbsent(links, xs) else AppendAbsent(links, xs) + [x]
  {
    assert (xs + [x])[..|xs|] == xs;
  }

  /** Merging two runs of links is merging the first, then the second. */
  lemma {:induction false} AppendAbsentConcat(links: seq<string>, a: seq<string>, b: seq<string>)
    ensures AppendAbsent(links, a + b) == AppendAbsent(AppendAbsent(links, a), b)
    decreases |b|
  {
    if b == [] {
      assert a + b == a;
    } else {
      var init, x := b[..|b| - 1], b[|b| - 1];
      AppendAbsentConcat(links, a, init);
      assert a + b == (a + init) + [x];
      AppendAbsentStep(links, a + init, x);
      AppendAbsentStep(AppendAbsent(links, a), init, x);
      assert init + [x] == b;
    }
  }

  /**
    The merged link list keeps the seed links unchanged in front, holds every
    appended link, holds nothing else, and each link the merge adds differs
    from every link before it.
  */
  lemma {:induction false} AppendAbsentProperties(links: seq<string>, xs: seq<string>)
    ensures var r := AppendAbsent(links, xs);
      && |links| <= |r| && r[..|links|] == links
      && (forall x :: x in xs ==> x in r)
      && (forall y :: y in r ==> y in links || y in xs)
      && (forall i, j :: 0 <= i < j < |r| && |links| <= j ==> r[i] != r[j])
  {
    if xs != [] {
      var init := xs[..|xs| - 1];
      AppendAbsentProperties(links, init);
      assert xs == init + [xs[|xs| - 1]];
    }
  }

  /** When every appended link is already present, the merge changes nothing. */
  lemma {:induction false} AppendPresentUnchanged(links: seq<string>, xs: seq<string>)
    requires forall x :: x in xs ==> x in links
    ensures AppendAbsent(links, xs) == links
  {
    if xs != [] {
      var init := xs[..|xs| - 1];
      assert forall x :: x in init ==> x in xs;
      AppendPresentUnchanged(links, init);
      assert xs[|xs| - 1] in xs;
    }
  }

  /** A duplicate-free seed stays duplicate-free after the merge. */
  lemma MergeKeepsDistinct(links: seq<string>, xs: seq<string>)
    requires forall i, j :: 0 <= i < j < |links| ==> links[i] != links[j]
    ensures var r := AppendAbsent(links, xs);
      forall i, j :: 0 <= i < j < |r| ==> r[i] != r[j]
  {
    var r := AppendAbsent(links, xs);
    AppendAbsentProperties(links, xs);
    forall i, j | 0 <= i < j < |r| ensures r[i] != r[j] {
      if j < |links| {
        assert r[i] == links[i] && r[j] == links[j];
      }
    }
  }

  /** `[item.question for item in neighbours if item.question]`. */
  function NonEmptyQuestions(neighbours: seq<VectorSearch.SimilarQuestion>): (qs: seq<string>)
    ensures |qs| <= |neighbours|
    ensures forall i :: 0 <= i < |qs| ==> qs[i] != ""
  {
    if neighbours == [] then []
    else
      (if neighbours[0].question != "" then [neighbours[0].question] else [])
      + NonEmptyQuestions(neighbours[1..])
  }

  /**
    The similar questions follow the neighbours' rank order: those of a
    longer neighbour list are those of its first part followed by those of
    the rest; and every non-empty question among the neighbours is there.
  */
  lemma {:induction false} NonEmptyQuestionsInRankOrder(a: seq<VectorSearch.SimilarQuestion>, b: seq<VectorSearch.SimilarQuestion>)
    ensures NonEmptyQuestions(a + b) == NonEmptyQuestions(a) + NonEmptyQuestions(b)
  {
    if a != [] {
      assert (a + b)[0] == a[0];
      assert (a + b)[1..] == a[1..] + b;
      NonEmptyQuestionsInRankOrder(a[1..], b);
    } else {
      assert a + b == b;
    }
  }

  /** Every non-empty question among the neighbours is among the similar questions. */
  lemma {:induction false} NonEmptyQuestionsComplete(a: seq<VectorSearch.SimilarQuestion>, k: nat)
    requires k < |a| && a[k].question != ""
    ensures a[k].question in NonEmptyQuestions(a)
  {
    if k > 0 {
      assert a[k] == a[1..][k - 1];
      NonEmptyQuestionsComplete(a[1..], k - 1);
    }
  }

  /** The answer `predict` gives for a resolved label and the neighbours found (None without a store). */
  function Answer(metadata: LabelMetadata, confidence: real, neighbours: Option<seq<VectorSearch.SimilarQuestion>>)
    : (a: GeneratedAnswer)
    ensures a.text == metadata.answer && a.category == metadata.category && a.subcategory == metadata.subcategory
    ensures a.confidence == confidence
    ensures forall i :: 0 <= i < |a.similarQuestions| ==> a.similarQuestions[i] != ""
    ensures neighbours.None? ==> a.similarQuestions == [] && a.suggestedLinks == metadata.suggestedLinks
  {
    match neighbours
    case None => GeneratedAnswer(metadata.answer, metadata.category, metadata.subcategory, confidence, [], metadata.suggestedLinks)
    case Some(ns) =>
      GeneratedAnswer(
        metadata.answer, metadata.category, metadata.subcategory, confidence,
        NonEmptyQuestions(ns), AppendAbsent(metadata.suggestedLinks, AllLinks(ns)))
  }

  /** The neighbours `predict` asks the store for: the original, unnormalised text with the same `top_k`. */
  function Neighbours(service: NLPService, text: string, topK: int): Option<seq<VectorSearch.SimilarQuestion>>
    requires Valid(service)
  {
    match service.vectorStore
    case None => None
    case Some(store) => Some(VectorSearch.SearchResult(service.unicode, store, text, topK, ScoreThreshold))
  }

  /** `NLPService.predict`. */
  method Predict(service: NLPService, text: string, topK: int) returns (r: Result<GeneratedAnswer, PredictError>)
    requires Valid(service)
    ensures Infer(service, text, topK).InferenceFailed? ==> r == Failure(InferenceFailure)
    ensures Infer(service, text, topK).Inferred? ==>
      var best := Infer(service, text, topK);
      && (best.index !in service.idToMetadata ==> r == Failure(MissingLabel(best.index)))
      && (best.index in service.idToMetadata ==>
            r == Success(Answer(service.idToMetadata[best.index], best.confidence, Neighbours(service, text, topK))))
  {
    var inference := Infer(service, text, topK);
    if inference.InferenceFailed? {
      return Failure(InferenceFailure);
    }
    var bestIndex := inference.index;
    if bestIndex !in service.idToMetadata {
      return Failure(MissingLabel(bestIndex));
    }
    var metadata := service.idToMetadata[bestIndex];
    var similarQuestions: seq<string> := [];
    var suggestedLinks := metadata.suggestedLinks;
    if service.vectorStore.Some? {
      var neighbours := VectorSearch.Search(service.unicode, service.vectorStore.value, text, topK, ScoreThreshold);
      similarQuestions := NonEmptyQuestions(neighbours);
      suggestedLinks := MergeNeighbourLinks(suggestedLinks, neighbours);
    }
    return Success(GeneratedAnswer(
      metadata.answer, metadata.category, metadata.subcategory, inference.confidence,
      similarQuestions, suggestedLinks));
  }

  /** The nested loop of `predict` that appends each neighbour link not yet in the list. */
  method MergeNeighbourLinks(seed: seq<string>, neighbours: seq<VectorSearch.SimilarQuestion>) returns (links: seq<string>)
    ensures links == AppendAbsent(seed, AllLinks(neighbours))
  {
    links := seed;
    for i := 0 to |neighbours|
      invariant links == AppendAbsent(seed, AllLinks(neighbours[..i]))
    {
      AppendAbsentConcat(seed, AllLinks(neighbours[..i]), neighbours[i].suggestedLinks);
      AllLinksStep(neighbours, i);
      links := AppendNewLinks(links, neighbours[i].suggestedLinks);
    }
    assert neighbours[..|neighbours|] == neighbours;
  }

  /** The inner loop of the merge: each of `xs` is appended unless `links` already holds it. */
  method AppendNewLinks(links0: seq<string>, xs: seq<string>) returns (links: seq<string>)
    ensures links == AppendAbsent(links0, xs)
  {
    links := links0;
    for j := 0 to |xs|
      invariant links == AppendAbsent(links0, xs[..j])
    {
      AppendAbsentStep(links0, xs[..j], xs[j]);
      assert xs[..j + 1] == xs[..j] + [xs[j]];
      if xs[j] !in links {
        links := links + [xs[j]];
      }
    }
    assert xs[..|xs|] == xs;
  }

  /**
    What an answer holds: the resolved label's text, category and
    subcategory; its links first and unchanged, then the neighbours' links
    not already present, each once; the neighbours' non-empty questions; and
    without a store, no questions and exactly the label's links.
  */
  lemma AnswerProperties(metadata: LabelMetadata, confidence: real, neighbours: Option<seq<VectorSearch.SimilarQuestion>>)
    ensures var a := Answer(metadata, confidence, neighbours);
      && a.text == metadata.answer && a.category == metadata.category && a.subcategory == metadata.subcategory
      && a.confidence == confidence
      && |metadata.suggestedLinks| <= |a.suggestedLinks|
      && a.suggestedLinks[..|metadata.suggestedLinks|] == metadata.suggestedLinks
      && (forall i, j :: 0 <= i < j < |a.suggestedLinks| && |metadata.suggestedLinks| <= j ==>
            a.suggestedLinks[i] != a.suggestedLinks[j])
      && (forall q :: q in a.similarQuestions ==> q != "")
      && (neighbours.None? ==> a.similarQuestions == [] && a.suggestedLinks == metadata.suggestedLinks)
      && (neighbours.Some? ==>
            && (forall k, l :: 0 <= k < |neighbours.value| && l in neighbours.value[k].suggestedLinks ==>
                  l in a.suggestedLinks)
            && (forall k :: 0 <= k < |neighbours.value| && neighbours.value[k].question != "" ==>
                  neighbours.value[k].question in a.similarQuestions))
  {
    if neighbours.Some? {
      var ns := neighbours.value;
      AppendAbsentProperties(metadata.suggestedLinks, AllLinks(ns));
      forall k, l | 0 <= k < |ns| && l in ns[k].suggestedLinks ensures l in AllLinks(ns) {
        LinkInAllLinks(ns, k, l);
      }
      forall k | 0 <= k < |ns| && ns[k].question != "" ensures ns[k].question in NonEmptyQuestions(ns) {
        NonEmptyQuestionsComplete(ns, k);
      }
    }
  }

  lemma {:induction false} LinkInAllLinks(ns: seq<VectorSearch.SimilarQuestion>, k: nat, l: string)
    requires k < |ns| && l in ns[k].suggestedLinks
    ensures l in AllLinks(ns)
  {
    var init := ns[..|ns| - 1];
    if k < |ns| - 1 {
      assert init[k] == ns[k];
      LinkInAllLinks(init, k, l);
    }
  }
}
