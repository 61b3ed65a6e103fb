/** The counting parts of project3's `TfIdfAnalyzer`: how many pages contain
    each word (the loop of `computeIdfScores` before its logarithm), the term
    frequency table of a word list, the shape of the per-page TF-IDF
    vectors, and the lookups of `computeRelevance` that read a missing entry
    as 0. Doubles are modelled as `real`; the IDF table is an input. */
module TfIdf {
  import opened Webpages

  /** The distinct words of a list. */
  ghost function Distinct(words: seq<string>): set<string> {
    set word | word in words
  }

  /** Every word occurring in some page. */
  ghost function AllWords(pages: set<Webpage>): set<string> {
    set p, word | p in pages && word in p.words :: word
  }

  /** The pages containing `word`. */
  ghost function PagesWith(pages: set<Webpage>, word: string): set<Webpage> {
    set p | p in pages && word in p.words
  }

  /** The number of pages containing `word`: its document frequency. */
  ghost function DocumentCount(pages: set<Webpage>, word: string): nat {
    |PagesWith(pages, word)|
  }

  /** The count a table holds for `word`, 0 when it has none. */
  function CountOf(counts: map<string, nat>, word: string): nat {
    if word in counts then counts[word] else 0
  }

  /** The value a table holds for `word`, 0 when it has none: the
      `containsKey ? get : 0.0` of `computeRelevance`. */
  function Lookup(table: map<string, real>, word: string): real {
    if word in table then table[word] else 0.0
  }

  /** Term frequency: the share of the list's positions holding `word`. */
  ghost function Tf(words: seq<string>, word: string): real {
    if |words| == 0 then 0.0 else (multiset(words)[word] as real) / (|words| as real)
  }

  /** The TF-IDF vector of a page with words `words`. */
  ghost function Vector(words: seq<string>, idf: map<string, real>): map<string, real> {
    map word | word in Distinct(words) :: Tf(words, word) * Lookup(idf, word)
  }

  /** Adding page `w` to the pages counted so far raises the count of each of
      its words by exactly one, however often the word repeats in it, and
      leaves every other count alone. */
  lemma {:induction false} DocumentCountStep(done: set<Webpage>, w: Webpage, word: string)
    requires w !in done
    ensures DocumentCount(done + {w}, word) ==
            DocumentCount(done, word) + (if word in w.words then 1 else 0)
  {
    if word in w.words {
      assert PagesWith(done + {w}, word) == PagesWith(done, word) + {w};
    } else {
      assert PagesWith(done + {w}, word) == PagesWith(done, word);
    }
  }

  /** The counting loop of `computeIdfScores`: for every word occurring in
      some page, the number of pages containing it. */
  method CountDocuments(pages: set<Webpage>) returns (counts: map<string, nat>)
    ensures counts.Keys == AllWords(pages)
    ensures forall word :: word in counts ==> counts[word] == DocumentCount(pages, word)
  {
    counts := map[];
    var done: set<Webpage> := {};
    while done != pages
      invariant done <= pages
      invariant counts.Keys == AllWords(done)
      invariant forall word :: word in counts ==> counts[word] == DocumentCount(done, word)
      decreases |pages - done|
    {
      var w :| w in pages - done;
      counts := CountPage(counts, w.words);
      assert AllWords(done + {w}) == AllWords(done) + Distinct(w.words);
      forall word | word in counts
        ensures counts[word] == DocumentCount(done + {w}, word)
      {
        DocumentCountStep(done, w, word);
      }
      done := done + {w};
    }
  }

  /** The inner loop of `computeIdfScores` for one page: each distinct word
      of `words` is counted once, the `visited` set skipping its repeats. */
  method CountPage(counts: map<string, nat>, words: seq<string>) returns (next: map<string, nat>)
    ensures next.Keys == counts.Keys + Distinct(words)
    ensures forall word :: word in next ==>
              next[word] == CountOf(counts, word) + (if word in words then 1 else 0)
  {
    next := counts;
    var visited: set<string> := {};
    var i := 0;
    while i < |words|
      invariant i <= |words|
      invariant visited == Distinct(words[..i])
      invariant next.Keys == counts.Keys + visited
      invariant forall word :: word in next ==>
                  next[word] == CountOf(counts, word) + (if word in visited then 1 else 0)
    {
      var word := words[i];
      if word !in visited {
        if word !in next {
          next := next[word := 1];
        } else {
          var score := next[word];
          next := next[word := score + 1];
        }
        visited := visited + {word};
      }
      assert words[..i + 1] == words[..i] + [word];
      i := i + 1;
    }
    assert words[..i] == words;
  }

  /** The sum of `increment` over the positions of `words` holding `word`. */
  ghost function Accumulated(words: seq<string>, word: string, increment: real): real {
    if |words| == 0 then 0.0
    else
      Accumulated(words[..|words| - 1], word, increment)
      + (if words[|words| - 1] == word then increment else 0.0)
  }

  /** `count` copies of `x` added up. */
  ghost function Repeated(count: nat, x: real): real {
    if count == 0 then 0.0 else Repeated(count - 1, x) + x
  }

  /** Adding `x` up `count` times gives `count * x`. */
  lemma {:induction false} RepeatedIsProduct(count: nat, x: real)
    ensures Repeated(count, x) == (count as real) * x
  {
    if count != 0 {
      RepeatedIsProduct(count - 1, x);
      Distribute(Repeated(count, x), count as real, (count - 1) as real, x);
    }
  }

  /** One more occurrence adds one more `x`. */
  lemma Distribute(a: real, n: real, c: real, x: real)
    requires a == c * x + x
    requires n == c + 1.0
    ensures a == n * x
  {
  }

  /** Adding `increment` once per occurrence of `word` adds it up as many
      times as `word` occurs. */
  lemma {:induction false} AccumulatedCount(words: seq<string>, word: string, increment: real)
    ensures Accumulated(words, word, increment) == Repeated(multiset(words)[word], increment)
  {
    if |words| != 0 {
      var init, last := words[..|words| - 1], words[|words| - 1];
      assert words == init + [last];
      AccumulatedCount(init, word, increment);
    }
  }

  /** Adding `1/|words|` once per occurrence of `word` gives its term
      frequency. */
  lemma TfByIncrements(words: seq<string>, word: string)
    requires |words| != 0
    ensures Accumulated(words, word, 1.0 / (|words| as real)) == Tf(words, word)
  {
    var count := multiset(words)[word];
    AccumulatedCount(words, word, 1.0 / (|words| as real));
    RepeatedIsProduct(count, 1.0 / (|words| as real));
    Share(count as real, |words| as real);
  }

  /** `c` times `1/n` is `c/n`. */
  lemma Share(c: real, n: real)
    requires n != 0.0
    ensures c * (1.0 / n) == c / n
  {
  }

  /** `computeTfScores`: every distinct word of the list with its term
      frequency, built by adding `1/|words|` once per occurrence. Java
      computes `1.0/0` for an empty list, a value the loop then never
      uses; the model uses 0 there. */
  method ComputeTfScores(words: seq<string>) returns (tf: map<string, real>)
    ensures tf.Keys == Distinct(words)
    ensures forall word :: word in tf ==> tf[word] == Tf(words, word)
  {
    tf := map[];
    var incrementScore: real := if |words| == 0 then 0.0 else 1.0 / (|words| as real);
    var i := 0;
    while i < |words|
      invariant i <= |words|
      invariant tf.Keys == Distinct(words[..i])
      invariant forall word :: Lookup(tf, word) == Accumulated(words[..i], word, incrementScore)
    {
      var word := words[i];
      if word !in tf {
        tf := tf[word := incrementScore];
      } else {
        var score := tf[word];
        tf := tf[word := score + incrementScore];
      }
      assert words[..i + 1][..i] == words[..i];
      i := i + 1;
    }
    assert words[..i] == words;
    forall word | word in tf
      ensures tf[word] == Tf(words, word)
    {
      assert Lookup(tf, word) == Accumulated(words, word, incrementScore);
      TfByIncrements(words, word);
    }
  }

  /** A word of a non-empty list has a term frequency above 0 and at most 1. */
  lemma {:induction false} TfBounds(words: seq<string>, word: string)
    requires word in words
    ensures 0.0 < Tf(words, word) <= 1.0
  {
    OccurrencesBound(words, word);
  }

  /** A word occurs in a list at most as often as the list is long, and at
      least once when it is in the list. */
  lemma {:induction false} OccurrencesBound(words: seq<string>, word: string)
    ensures multiset(words)[word] <= |words|
    ensures word in words ==> 0 < multiset(words)[word]
  {
    if words != [] {
      var last := |words| - 1;
      assert words == words[..last] + [words[last]];
      OccurrencesBound(words[..last], word);
    }
  }

  /** `computeAllDocumentTfIdfVectors`: one vector per page, keyed by its URI,
      giving each distinct word of the page its term frequency times its
      IDF. Every word of the pages has an IDF, since the IDF table was
      built from the same pages. */
  method DocumentVectors(pages: set<Webpage>, idf: map<string, real>)
    returns (vectors: map<Uri, map<string, real>>)
    requires UniqueUris(pages)
    requires forall p, word :: p in pages && word in p.words ==> word in idf
    ensures vectors.Keys == Uris(pages)
    ensures forall p :: p in pages ==> vectors[p.uri] == Vector(p.words, idf)
  {
    vectors := map[];
    var done: set<Webpage> := {};
    while done != pages
      invariant done <= pages
      invariant vectors.Keys == Uris(done)
      invariant forall p :: p in done ==> vectors[p.uri] == Vector(p.words, idf)
      decreases |pages - done|
    {
      var w :| w in pages - done;
      vectors := AddVector(vectors, done, w, pages, idf);
      done := done + {w};
    }
  }

  /** One turn of the loop of `computeAllDocumentTfIdfVectors`: enters the
      vector of page `w` under its URI. */
  method AddVector(vectors: map<Uri, map<string, real>>, ghost done: set<Webpage>, w: Webpage,
                   ghost pages: set<Webpage>, idf: map<string, real>)
    returns (next: map<Uri, map<string, real>>)
    requires UniqueUris(pages) && done <= pages && w in pages && w !in done
    requires forall word :: word in w.words ==> word in idf
    requires vectors.Keys == Uris(done)
    requires forall p :: p in done ==> vectors[p.uri] == Vector(p.words, idf)
    ensures next.Keys == Uris(done + {w})
    ensures forall p :: p in done + {w} ==> next[p.uri] == Vector(p.words, idf)
  {
    var vector := PageVector(w.words, idf);
    EnterPage(vectors, done, w, vector, pages, (p: Webpage) => Vector(p.words, idf));
    next := vectors[w.uri := vector];
  }

  /** The vectors `DocumentVectors` builds, read entry by entry: a page's
      vector has exactly its distinct words, each with its term frequency
      times its IDF. */
  lemma VectorEntries(vectors: map<Uri, map<string, real>>, pages: set<Webpage>, idf: map<string, real>)
    requires forall p :: p in pages ==> p.uri in vectors && vectors[p.uri] == Vector(p.words, idf)
    requires forall p, word :: p in pages && word in p.words ==> word in idf
    ensures forall p :: p in pages ==> vectors[p.uri].Keys == Distinct(p.words)
    ensures forall p, word :: p in pages && word in p.words ==>
              word in vectors[p.uri] && vectors[p.uri][word] == Tf(p.words, word) * idf[word]
  {
    forall p, word | p in pages && word in p.words
      ensures word in vectors[p.uri] && vectors[p.uri][word] == Tf(p.words, word) * idf[word]
    {
      assert word in Distinct(p.words);
    }
  }

  /** The body of `computeAllDocumentTfIdfVectors` for one page. */
  method PageVector(words: seq<string>, idf: map<string, real>) returns (vector: map<string, real>)
    requires forall word :: word in words ==> word in idf
    ensures vector == Vector(words, idf)
  {
    var tfScore := ComputeTfScores(words);
    vector := ScoreWords(words, tfScore, idf);
    VectorFromScores(words, idf, tfScore, vector);
  }

  /** The inner loop of `computeAllDocumentTfIdfVectors`: each word of the
      page, in order, put with its TF score times its IDF score. */
  method ScoreWords(words: seq<string>, tfScore: map<string, real>, idf: map<string, real>)
    returns (vector: map<string, real>)
    requires tfScore.Keys == Distinct(words)
    requires forall word :: word in words ==> word in idf
    ensures vector.Keys == Distinct(words)
    ensures forall word :: word in vector ==> vector[word] == tfScore[word] * Lookup(idf, word)
  {
    vector := map[];
    var i := 0;
    while i < |words|
      invariant i <= |words|
      invariant vector.Keys == Distinct(words[..i])
      invariant forall word :: word in vector ==> word in tfScore && vector[word] == tfScore[word] * Lookup(idf, word)
    {
      ghost var before := vector;
      var word := words[i];
      var idfScore := idf[word];
      assert idfScore == Lookup(idf, word);
      vector := vector[word := tfScore[word] * idfScore];
      forall w | w in vector
        ensures w in tfScore && vector[w] == tfScore[w] * Lookup(idf, w)
      {
        if w != word {
          assert vector[w] == before[w];
        }
      }
      assert words[..i + 1] == words[..i] + [word];
      i := i + 1;
    }
    assert words[..i] == words;
  }

  /** A table over the distinct words giving each its term frequency times
      its IDF is the page's vector. */
  lemma VectorFromScores(words: seq<string>, idf: map<string, real>, tf: map<string, real>,
                         vector: map<string, real>)
    requires vector.Keys == tf.Keys == Distinct(words)
    requires forall word :: word in tf ==> tf[word] == Tf(words, word)
    requires forall word :: word in vector ==> vector[word] == tf[word] * Lookup(idf, word)
    ensures vector == Vector(words, idf)
  {
    forall word | word in vector
      ensures vector[word] == Vector(words, idf)[word]
    {
      assert tf[word] == Tf(words, word);
    }
  }

  /** The query vector of `computeRelevance`: each distinct query word with
      its term frequency in the query times its IDF, an IDF of 0 standing in
      for a word the pages never use. */
  method QueryWeights(query: seq<string>, idf: map<string, real>) returns (weights: map<string, real>)
    ensures weights == Vector(query, idf)
    ensures forall word :: word in weights && word !in idf ==> weights[word] == 0.0
  {
    var tfScoreQuery := ComputeTfScores(query);
    weights := QueryScores(query, tfScoreQuery, idf);
    VectorFromScores(query, idf, tfScoreQuery, weights);
  }

  /** The query loop of `computeRelevance`: each query word, in order, put
      with its TF score times its IDF score, or times 0 when it has none. */
  method QueryScores(query: seq<string>, tfScoreQuery: map<string, real>, idf: map<string, real>)
    returns (weights: map<string, real>)
    requires tfScoreQuery.Keys == Distinct(query)
    ensures weights.Keys == Distinct(query)
    ensures forall word :: word in weights ==> weights[word] == tfScoreQuery[word] * Lookup(idf, word)
  {
    weights := map[];
    var i := 0;
    while i < |query|
      invariant i <= |query|
      invariant weights.Keys == Distinct(query[..i])
      invariant forall word :: word in weights ==> word in tfScoreQuery && weights[word] == tfScoreQuery[word] * Lookup(idf, word)
    {
      ghost var before := weights;
      var word := query[i];
      var idfScore := 0.0;
      if word in idf {
        idfScore := idf[word];
      }
      assert idfScore == Lookup(idf, word);
      var tf := tfScoreQuery[word];
      weights := weights[word := tf * idfScore];
      forall w | w in weights
        ensures w in tfScoreQuery && weights[w] == tfScoreQuery[w] * Lookup(idf, w)
      {
        if w != word {
          assert weights[w] == before[w];
        }
      }
      assert query[..i + 1] == query[..i] + [word];
      i := i + 1;
    }
    assert query[..i] == query;
  }

  /** The numerator of the cosine: over the query's positions, repeats
      included, the document's score for the word (0 when the document lacks
      it) times the query's weight for it. */
  ghost function Dot(query: seq<string>, document: map<string, real>, weights: map<string, real>): real
    requires forall word :: word in query ==> word in weights
  {
    if |query| == 0 then 0.0
    else
      var last := query[|query| - 1];
      Dot(query[..|query| - 1], document, weights) + Lookup(document, last) * weights[last]
  }

  /** The query's positions whose word the document has. */
  ghost function Present(query: seq<string>, document: map<string, real>): (r: seq<string>)
    ensures forall word :: word in r ==> word in query && word in document
  {
    if |query| == 0 then []
    else
      var last := query[|query| - 1];
      Present(query[..|query| - 1], document) + (if last in document then [last] else [])
  }

  /** Query words the document lacks add nothing to the numerator: it is the
      same over only the words the document has. */
  lemma {:induction false} AbsentWordsAddNothing(query: seq<string>, document: map<string, real>,
                                                 weights: map<string, real>)
    requires forall word :: word in query ==> word in weights
    ensures Dot(query, document, weights) == Dot(Present(query, document), document, weights)
  {
    if |query| != 0 {
      var init := query[..|query| - 1];
      var last := query[|query| - 1];
      AbsentWordsAddNothing(init, document, weights);
      if last in document {
        var r := Present(init, document) + [last];
        assert r[..|r| - 1] == Present(init, document);
        assert Present(query, document) == r;
      } else {
        assert Present(query, document) == Present(init, document);
        assert Lookup(document, last) == 0.0;
      }
    }
  }

  /** The numerator loop of `computeRelevance`. */
  method Numerator(query: seq<string>, document: map<string, real>, weights: map<string, real>)
    returns (numerator: real)
    requires forall word :: word in query ==> word in weights
    ensures numerator == Dot(query, document, weights)
  {
    numerator := 0.0;
    var i := 0;
    while i < |query|
      invariant i <= |query|
      invariant numerator == Dot(query[..i], document, weights)
    {
      var word := query[i];
      var docWordScore := 0.0;
      if word in document {
        docWordScore := document[word];
      }
      var queryWordScore := weights[word];
      assert query[..i + 1][..i] == query[..i];
      numerator := numerator + docWordScore * queryWordScore;
      i := i + 1;
    }
    assert query[..i] == query;
  }
}
