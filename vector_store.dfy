/**
  The similarity index: a corpus of known questions with one similarity
  score per row for a query, from which `search` picks the best-scoring rows
  above a threshold and copies their metadata.
*/
module VectorSearch {
  import opened Wrappers
  import Preprocessing

  /** One corpus row's metadata as stored; a key that is absent reads as None. */
  datatype RowMetadata = RowMetadata(
    question: Option<string>,
    answer: Option<string>,
    category: Option<string>,
    subcategory: Option<string>,
    tags: Option<seq<string>>,
    suggestedLinks: Option<seq<string>>)

  /** `SimilarQuestion`: a returned neighbour with its score. */
  datatype SimilarQuestion = SimilarQuestion(
    question: string,
    answer: string,
    category: Option<string>,
    subcategory: Option<string>,
    score: real,
    tags: seq<string>,
    suggestedLinks: seq<string>)

  /**
    A loaded store. The fitted TF-IDF vectoriser and the corpus matrix
    appear together as `scores`: for a normalised query, one similarity per
    corpus row (`linear_kernel(vectorizer.transform([query]), matrix)`).
  */
  datatype VectorStore = VectorStore(scores: string -> seq<real>, metadata: seq<RowMetadata>)

  /** The store's invariant: the matrix has exactly one row per metadata entry. */
  ghost predicate RowAligned(store: VectorStore) {
    forall q :: |store.scores(q)| == |store.metadata|
  }

  /** Row indices in non-increasing order of score. */
  predicate SortedByScore(scores: seq<real>, order: seq<nat>) {
    && (forall k :: 0 <= k < |order| ==> order[k] < |scores|)
    && (forall k, l :: 0 <= k < l < |order| ==> scores[order[k]] >= scores[order[l]])
  }

  predicate Distinct(order: seq<nat>) {
    forall k, l :: 0 <= k < l < |order| ==> order[k] != order[l]
  }

  /**
    What `np.argsort(scores)[::-1]` yields: every row index exactly once,
    best score first. The order among equal scores is left open.
  */
  predicate IsRanking(scores: seq<real>, order: seq<nat>) {
    && |order| == |scores|
    && SortedByScore(scores, order)
    && Distinct(order)
    && (forall j: nat :: j < |scores| ==> j in order)
  }

  predicate IndicesIn(top: seq<nat>, n: nat) {
    forall k :: 0 <= k < |top| ==> top[k] < n
  }
  /** Every row of `order` scores at most `b`. */
  predicate AllAtMost(scores: seq<real>, order: seq<nat>, b: real)
    requires IndicesIn(order, |scores|)
  {
    forall k :: 0 <= k < |order| ==> scores[order[k]] <= b
  }

  /** Inserts row `i` into `order` before the first row scoring below it. */
  function InsertByScore(scores: seq<real>, i: nat, order: seq<nat>): (r: seq<nat>)
    requires i < |scores| && IndicesIn(order, |scores|)
    ensures |r| == |order| + 1 && IndicesIn(r, |scores|)
  {
    if order == [] then [i]
    else if scores[order[0]] < scores[i] then [i] + order
    else [order[0]] + InsertByScore(scores, i, order[1..])
  }

  /** Insertion adds row `i` and keeps every other row. */
  lemma {:induction false} InsertMembers(scores: seq<real>, i: nat, order: seq<nat>)
    requires i < |scores| && IndicesIn(order, |scores|)
    ensures forall j :: j in InsertByScore(scores, i, order) <==> j == i || j in order
    ensures Distinct(order) && i !in order ==> Distinct(InsertByScore(scores, i, order))
  {
    if order != [] && scores[order[0]] >= scores[i] {
      var x, t := order[0], order[1..];
      var rest := InsertByScore(scores, i, t);
      InsertMembers(scores, i, t);
      assert order == [x] + t;
      assert InsertByScore(scores, i, order) == [x] + rest;
      if Distinct(order) && i !in order {
        assert Distinct(t) by {
          assert forall k :: 0 <= k < |t| ==> t[k] == order[k + 1];
        }
        assert x !in rest;
      }
    }
  }

  /** A row scoring at least as well as a sorted run stays sorted in front of it. */
  lemma SortedCons(scores: seq<real>, x: nat, rest: seq<nat>)
    requires x < |scores| && SortedByScore(scores, rest) && AllAtMost(scores, rest, scores[x])
    ensures SortedByScore(scores, [x] + rest)
  {
    var r := [x] + rest;
    forall k, l | 0 <= k < l < |r| ensures scores[r[k]] >= scores[r[l]] {
      assert r[l] == rest[l - 1];
      if k > 0 {
        assert r[k] == rest[k - 1];
      }
    }
  }

  /** A bound on the scores of a run and of one more row bounds both together. */
  lemma AllAtMostCons(scores: seq<real>, x: nat, rest: seq<nat>, b: real)
    requires x < |scores| && IndicesIn(rest, |scores|)
    ensures AllAtMost(scores, [x] + rest, b) <==> scores[x] <= b && AllAtMost(scores, rest, b)
  {
    var r := [x] + rest;
    assert r[0] == x;
    assert forall k :: 0 <= k < |rest| ==> r[k + 1] == rest[k];
  }

  /** Insertion keeps the rows sorted by score, and a bound on the scores. */
  lemma {:induction false} InsertSorted(scores: seq<real>, i: nat, order: seq<nat>)
    requires i < |scores| && SortedByScore(scores, order)
    ensures SortedByScore(scores, InsertByScore(scores, i, order))
    ensures forall b :: AllAtMost(scores, order, b) && scores[i] <= b ==> AllAtMost(scores, InsertByScore(scores, i, order), b)
  {
    if order == [] {
      assert AllAtMost(scores, [i], scores[i]);
      forall b | scores[i] <= b ensures AllAtMost(scores, [i], b) {
        AllAtMostCons(scores, i, [], b);
      }
    } else {
      var x, t := order[0], order[1..];
      assert order == [x] + t;
      assert AllAtMost(scores, t, scores[x]);
      forall b ensures AllAtMost(scores, order, b) <==> scores[x] <= b && AllAtMost(scores, t, b) {
        AllAtMostCons(scores, x, t, b);
      }
      if scores[x] < scores[i] {
        assert AllAtMost(scores, order, scores[i]);
        SortedCons(scores, i, order);
        forall b ensures AllAtMost(scores, [i] + order, b) <==> scores[i] <= b && AllAtMost(scores, order, b) {
          AllAtMostCons(scores, i, order, b);
        }
      } else {
        var rest := InsertByScore(scores, i, t);
        assert SortedByScore(scores, t);
        InsertSorted(scores, i, t);
        SortedCons(scores, x, rest);
        forall b ensures AllAtMost(scores, [x] + rest, b) <==> scores[x] <= b && AllAtMost(scores, rest, b) {
          AllAtMostCons(scores, x, rest, b);
        }
      }
    }
  }

  function RankPrefix(scores: seq<real>, n: nat): (r: seq<nat>)
    requires n <= |scores|
    ensures |r| == n && IndicesIn(r, |scores|)
  {
    if n == 0 then [] else InsertByScore(scores, n - 1, RankPrefix(scores, n - 1))
  }

  /** The first `n` rows, ranked: each once, best first. */
  lemma {:induction false} RankPrefixRanks(scores: seq<real>, n: nat)
    requires n <= |scores|
    ensures SortedByScore(scores, RankPrefix(scores, n)) && Distinct(RankPrefix(scores, n))
    ensures forall j: nat :: j in RankPrefix(scores, n) <==> j < n
  {
    if n > 0 {
      RankPrefixRanks(scores, n - 1);
      InsertMembers(scores, n - 1, RankPrefix(scores, n - 1));
      InsertSorted(scores, n - 1, RankPrefix(scores, n - 1));
    }
  }

  /** `np.argsort(scores)[::-1]`, as far as the code relies on it. */
  function RankDescending(scores: seq<real>): (order: seq<nat>)
    ensures IsRanking(scores, order)
  {
    RankPrefixRanks(scores, |scores|);
    RankPrefix(scores, |scores|)
  }

  /** The length of Python's slice `xs[:k]` of a list of length `n` (a negative `k` counts from the end). */
  function SliceEnd(n: nat, k: int): (m: nat)
    ensures m <= n
    ensures k >= 0 ==> m == (if k < n then k else n)
  {
    if k >= 0 then (if k < n then k else n)
    else if n + k > 0 then n + k
    else 0
  }

  /** A result built from a metadata row: "" for a missing question or answer, [] for missing tags or links. */
  function Hit(row: RowMetadata, score: real): (q: SimilarQuestion)
    ensures q.score == score && q.category == row.category && q.subcategory == row.subcategory
    ensures q.question == (if row.question.Some? then row.question.value else "")
    ensures q.answer == (if row.answer.Some? then row.answer.value else "")
    ensures q.tags == (if row.tags.Some? then row.tags.value else [])
    ensures q.suggestedLinks == (if row.suggestedLinks.Some? then row.suggestedLinks.value else [])
  {
    SimilarQuestion(
      row.question.GetOr(""), row.answer.GetOr(""), row.category, row.subcategory,
      score, row.tags.GetOr([]), row.suggestedLinks.GetOr([]))
  }

  /** The results the loop over `top` collects: rows below the threshold are skipped. */
  function Hits(metadata: seq<RowMetadata>, scores: seq<real>, top: seq<nat>, threshold: real): seq<SimilarQuestion>
    requires |scores| == |metadata| && IndicesIn(top, |scores|)
  {
    if top == [] then []
    else
      var prev := Hits(metadata, scores, top[..|top| - 1], threshold);
      var idx := top[|top| - 1];
      if scores[idx] < threshold then prev else prev + [Hit(metadata[idx], scores[idx])]
  }

  /** One more index of `top`: its row is collected when it reaches the threshold. */
  lemma HitsStep(metadata: seq<RowMetadata>, scores: seq<real>, top: seq<nat>, i: nat, threshold: real)
    requires |scores| == |metadata| && IndicesIn(top, |scores|) && i < |top|
    ensures IndicesIn(top[..i], |scores|) && IndicesIn(top[..i + 1], |scores|)
    ensures Hits(metadata, scores, top[..i + 1], threshold) ==
      if scores[top[i]] < threshold then Hits(metadata, scores, top[..i], threshold)
      else Hits(metadata, scores, top[..i], threshold) + [Hit(metadata[top[i]], scores[top[i]])]
  {
    assert top[..i + 1][..i] == top[..i];
  }

  /** The positions in `top` whose rows reach the threshold, in order. */
  ghost function Kept(scores: seq<real>, top: seq<nat>, threshold: real): (ps: seq<nat>)
    requires IndicesIn(top, |scores|)
    ensures |ps| <= |top|
    ensures forall i :: 0 <= i < |ps| ==> ps[i] < |top|
    ensures forall i, j :: 0 <= i < j < |ps| ==> ps[i] < ps[j]
  {
    if top == [] then []
    else
      var prev := Kept(scores, top[..|top| - 1], threshold);
      if scores[top[|top| - 1]] < threshold then prev else prev + [|top| - 1]
  }

  /** The kept positions are exactly those whose rows reach the threshold; all are kept when all reach it. */
  lemma {:induction false} KeptMembers(scores: seq<real>, top: seq<nat>, threshold: real)
    requires IndicesIn(top, |scores|)
    ensures forall p: nat :: p in Kept(scores, top, threshold) <==> p < |top| && scores[top[p]] >= threshold
    ensures (forall p :: 0 <= p < |top| ==> scores[top[p]] >= threshold) ==> |Kept(scores, top, threshold)| == |top|
  {
    if top != [] {
      var init := top[..|top| - 1];
      KeptMembers(scores, init, threshold);
      assert forall p :: 0 <= p < |init| ==> init[p] == top[p];
    }
  }

  /** Each collected result is the row at a kept position, with its score. */
  lemma {:induction false} HitsAreKept(metadata: seq<RowMetadata>, scores: seq<real>, top: seq<nat>, threshold: real)
    requires |scores| == |metadata| && IndicesIn(top, |scores|)
    ensures var hs, ps := Hits(metadata, scores, top, threshold), Kept(scores, top, threshold);
      |hs| == |ps| && forall i :: 0 <= i < |ps| ==> hs[i] == Hit(metadata[top[ps[i]]], scores[top[ps[i]]])
  {
    if top != [] {
      var init, last := top[..|top| - 1], |top| - 1;
      HitsAreKept(metadata, scores, init, threshold);
      var hs, ps := Hits(metadata, scores, init, threshold), Kept(scores, init, threshold);
      assert forall i :: 0 <= i < |ps| ==> init[ps[i]] == top[ps[i]];
      if scores[top[last]] >= threshold {
        var hs', ps' := hs + [Hit(metadata[top[last]], scores[top[last]])], ps + [last];
        assert Hits(metadata, scores, top, threshold) == hs';
        assert Kept(scores, top, threshold) == ps';
        forall i | 0 <= i < |ps'| ensures hs'[i] == Hit(metadata[top[ps'[i]]], scores[top[ps'[i]]]) {
          if i < |ps| {
            assert hs'[i] == hs[i] && ps'[i] == ps[i];
          }
        }
      }
    }
  }

  /**
    `search`: a blank query gives no results; otherwise the `top_k` best
    rows by score, those below `threshold` skipped.
  */
  function SearchResult(u: Preprocessing.UnicodeLibrary, store: VectorStore, query: string, topK: int, threshold: real)
    : (r: seq<SimilarQuestion>)
    requires RowAligned(store)
    ensures Preprocessing.Strip(query) == [] ==> r == []
  {
    if Preprocessing.Strip(query) == [] then []
    else
      var scores := store.scores(Preprocessing.Normalize(u, query));
      var order := RankDescending(scores);
      Hits(store.metadata, scores, order[..SliceEnd(|order|, topK)], threshold)
  }

  /** `VectorStore.search`, as the loop the source runs. */
  method Search(u: Preprocessing.UnicodeLibrary, store: VectorStore, query: string, topK: int, threshold: real)
    returns (results: seq<SimilarQuestion>)
    requires RowAligned(store)
    ensures results == SearchResult(u, store, query, topK, threshold)
  {
    if Preprocessing.Strip(query) == [] {
      return [];
    }
    var normalized := Preprocessing.Normalize(u, query);
    var scores := store.scores(normalized);
    var order := RankDescending(scores);
    var top := order[..SliceEnd(|order|, topK)];
    results := [];
    for i := 0 to |top|
      invariant results == Hits(store.metadata, scores, top[..i], threshold)
    {
      HitsStep(store.metadata, scores, top, i, threshold);
      var idx := top[i];
      var score := scores[idx];
      if score < threshold {
        continue;
      }
      var item := store.metadata[idx];
      results := results + [SimilarQuestion(
        item.question.GetOr(""), item.answer.GetOr(""), item.category, item.subcategory,
        score, item.tags.GetOr([]), item.suggestedLinks.GetOr([]))];
    }
    assert top[..|top|] == top;
  }

  /** A blank or whitespace-only query returns nothing, whatever the index holds. */
  lemma BlankQueryFindsNothing(u: Preprocessing.UnicodeLibrary, store: VectorStore, query: string, topK: int, threshold: real)
    requires RowAligned(store)
    requires forall i :: 0 <= i < |query| ==> Preprocessing.IsSpace(query[i])
    ensures SearchResult(u, store, query, topK, threshold) == []
  {
  }

  /**
    What a search returns: at most `top_k` results, none below the threshold,
    best first, each a copy of the metadata of a row with that row's score;
    a row scoring above a returned one is returned too; and when fewer than
    `top_k` results come back, every row reaching the threshold is among them.
  */
  lemma SearchResultProperties(u: Preprocessing.UnicodeLibrary, store: VectorStore, query: string, topK: int, threshold: real)
    requires RowAligned(store)
    ensures var r := SearchResult(u, store, query, topK, threshold);
      var scores := store.scores(Preprocessing.Normalize(u, query));
      && (topK >= 0 ==> |r| <= topK)
      && (forall i :: 0 <= i < |r| ==> r[i].score >= threshold)
      && (forall i, j :: 0 <= i < j < |r| ==> r[i].score >= r[j].score)
      && (forall i :: 0 <= i < |r| ==>
            exists row :: 0 <= row < |scores| && r[i] == Hit(store.metadata[row], scores[row]))
      && (Preprocessing.Strip(query) != [] ==>
            forall i, row :: 0 <= i < |r| && 0 <= row < |scores| && r[i].score < scores[row] ==>
              Hit(store.metadata[row], scores[row]) in r)
      && (Preprocessing.Strip(query) != [] && topK >= 0 && |r| < topK ==>
            forall row :: 0 <= row < |scores| && scores[row] >= threshold ==>
              Hit(store.metadata[row], scores[row]) in r)
  {
    if Preprocessing.Strip(query) != [] {
      var scores := store.scores(Preprocessing.Normalize(u, query));
      var order := RankDescending(scores);
      var len := SliceEnd(|order|, topK);
      HitsShape(store.metadata, scores, order, len, threshold);
      HitsDominance(store.metadata, scores, order, len, threshold);
      HitsComplete(store.metadata, scores, order, len, threshold);
    }
  }

  /** The results of a ranked prefix: no more than the prefix, none below the threshold, best first, copied rows. */
  lemma HitsShape(metadata: seq<RowMetadata>, scores: seq<real>, order: seq<nat>, len: nat, threshold: real)
    requires |scores| == |metadata| && IsRanking(scores, order) && len <= |order|
    ensures var r := Hits(metadata, scores, order[..len], threshold);
      && |r| <= len
      && (forall i :: 0 <= i < |r| ==> r[i].score >= threshold)
      && (forall i, j :: 0 <= i < j < |r| ==> r[i].score >= r[j].score)
      && (forall i :: 0 <= i < |r| ==> exists row :: 0 <= row < |scores| && r[i] == Hit(metadata[row], scores[row]))
  {
    var top := order[..len];
    var r := Hits(metadata, scores, top, threshold);
    var ps := Kept(scores, top, threshold);
    HitsAreKept(metadata, scores, top, threshold);
    KeptMembers(scores, top, threshold);
    forall i | 0 <= i < |r|
      ensures r[i].score >= threshold
      ensures exists row :: 0 <= row < |scores| && r[i] == Hit(metadata[row], scores[row])
    {
      assert ps[i] in ps;
      assert r[i] == Hit(metadata[top[ps[i]]], scores[top[ps[i]]]);
    }
    forall i, j | 0 <= i < j < |r| ensures r[i].score >= r[j].score {
      assert ps[i] < ps[j];
      assert r[i].score == scores[order[ps[i]]] && r[j].score == scores[order[ps[j]]];
    }
  }

  /** A row scoring strictly above some returned result is itself returned. */
  lemma HitsDominance(metadata: seq<RowMetadata>, scores: seq<real>, order: seq<nat>, len: nat, threshold: real)
    requires |scores| == |metadata| && IsRanking(scores, order) && len <= |order|
    ensures var r := Hits(metadata, scores, order[..len], threshold);
      forall i, row :: 0 <= i < |r| && 0 <= row < |scores| && r[i].score < scores[row] ==>
        Hit(metadata[row], scores[row]) in r
  {
    var top := order[..len];
    var r := Hits(metadata, scores, top, threshold);
    var ps := Kept(scores, top, threshold);
    HitsAreKept(metadata, scores, top, threshold);
    KeptMembers(scores, top, threshold);
    forall i, row | 0 <= i < |r| && 0 <= row < |scores| && r[i].score < scores[row]
      ensures Hit(metadata[row], scores[row]) in r
    {
      assert ps[i] in ps;
      assert r[i].score == scores[order[ps[i]]] && ps[i] < len;
      assert row in order;
      var q :| 0 <= q < |order| && order[q] == row;
      assert scores[order[ps[i]]] < scores[order[q]];
      assert q <= ps[i];
      assert row in top by { assert top[q] == row; }
      KeptRowReturned(metadata, scores, order, len, threshold, row);
    }
  }

  /** When the prefix is the whole ranking or yields fewer results than its length, nothing above the threshold is missed. */
  lemma HitsComplete(metadata: seq<RowMetadata>, scores: seq<real>, order: seq<nat>, len: nat, threshold: real)
    requires |scores| == |metadata| && IsRanking(scores, order) && len <= |order|
    ensures var r := Hits(metadata, scores, order[..len], threshold);
      |r| < len || len == |order| ==>
        forall row :: 0 <= row < |scores| && scores[row] >= threshold ==> Hit(metadata[row], scores[row]) in r
  {
    var top := order[..len];
    var r := Hits(metadata, scores, top, threshold);
    if |r| < len || len == |order| {
      forall row | 0 <= row < |scores| && scores[row] >= threshold
        ensures Hit(metadata[row], scores[row]) in r
      {
        if len == |order| {
          assert row in order;
          var q :| 0 <= q < |order| && order[q] == row;
          assert top[q] == row;
        }
        KeptRowReturned(metadata, scores, order, len, threshold, row);
      }
    }
  }

  /**
    A row that reaches the threshold is returned when it lies in the chosen
    prefix, or when the prefix yields fewer results than its length.
  */
  lemma KeptRowReturned(metadata: seq<RowMetadata>, scores: seq<real>, order: seq<nat>, len: nat, threshold: real, row: nat)
    requires |scores| == |metadata| && IsRanking(scores, order) && len <= |order|
    requires row < |scores| && scores[row] >= threshold
    requires row in order[..len] || |Hits(metadata, scores, order[..len], threshold)| < len
    ensures Hit(metadata[row], scores[row]) in Hits(metadata, scores, order[..len], threshold)
  {
    var top := order[..len];
    var r := Hits(metadata, scores, top, threshold);
    var ps := Kept(scores, top, threshold);
    HitsAreKept(metadata, scores, top, threshold);
    KeptMembers(scores, top, threshold);
    assert row in order;
    var q :| 0 <= q < |order| && order[q] == row;
    if q >= len {
      assert false;
    } else {
      assert top[q] == row;
      assert q in ps;
      var i :| 0 <= i < |ps| && ps[i] == q;
      assert r[i] == Hit(metadata[row], scores[row]);
    }
  }

  /** `VectorStore.load`: no store when the file is absent; the file system maps paths to stored bundles. */
  function Load(path: string, files: map<string, VectorStore>): (r: Option<VectorStore>)
    ensures r.None? <==> path !in files
    ensures r.Some? ==> r.value == files[path]
  {
    if path !in files then None else Some(files[path])
  }

  /** `load_vector_store`: no store for a missing or empty path, else `load`. */
  function LoadVectorStore(path: Option<string>, files: map<string, VectorStore>): (r: Option<VectorStore>)
    ensures path.None? || path == Some("") ==> r.None?
    ensures path.Some? && path.value != "" ==> r == Load(path.value, files)
  {
    if path.None? || path.value == "" then None else Load(path.value, files)
  }
}
