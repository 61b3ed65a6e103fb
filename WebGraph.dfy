/** `PageRankAnalyzer.makeGraph` of project3: the link graph of a corpus, in
    adjacency form, keeping only links between distinct pages of the
    corpus. */
module WebGraph {
  import opened Webpages

  /** The edges the graph gives a page with URI `uri` and links `links`. */
  ghost function Edges(uri: Uri, links: seq<Uri>, corpus: set<Uri>): set<Uri> {
    set l | l in links && l != uri && l in corpus
  }

  /** Builds the graph: one entry per page, keyed by its URI, whose edge set
      holds every link of the page that names another page of the corpus,
      once however often it repeats. */
  method MakeGraph(webpages: set<Webpage>) returns (graph: map<Uri, set<Uri>>)
    requires UniqueUris(webpages)
    ensures graph.Keys == Uris(webpages)
    ensures forall w, l :: w in webpages && l in graph[w.uri] ==>
              l in w.links && l != w.uri && l in Uris(webpages)
    ensures forall w, l :: w in webpages && l in w.links && l != w.uri && l in Uris(webpages) ==>
              l in graph[w.uri]
  {
    var corpus := Uris(webpages);
    graph := PageGraph(webpages, corpus);
  }

  /** The outer loop of `makeGraph`: each page entered under its URI with
      its edges into `corpus`. */
  method PageGraph(webpages: set<Webpage>, corpus: set<Uri>) returns (graph: map<Uri, set<Uri>>)
    requires UniqueUris(webpages)
    ensures graph.Keys == Uris(webpages)
    ensures forall w :: w in webpages ==> graph[w.uri] == Edges(w.uri, w.links, corpus)
  {
    graph := map[];
    var done: set<Webpage> := {};
    while done != webpages
      invariant done <= webpages
      invariant graph.Keys == Uris(done)
      invariant forall w :: w in done ==> graph[w.uri] == Edges(w.uri, w.links, corpus)
      decreases |webpages - done|
    {
      var w :| w in webpages - done;
      graph := AddPage(graph, done, w, webpages, corpus);
      done := done + {w};
    }
  }

  /** One turn of the outer loop: page `w` is entered with its edges. */
  method AddPage(graph: map<Uri, set<Uri>>, ghost done: set<Webpage>, w: Webpage,
                 ghost webpages: set<Webpage>, corpus: set<Uri>)
    returns (next: map<Uri, set<Uri>>)
    requires UniqueUris(webpages) && done <= webpages && w in webpages && w !in done
    requires graph.Keys == Uris(done)
    requires forall p :: p in done ==> graph[p.uri] == Edges(p.uri, p.links, corpus)
    ensures next.Keys == Uris(done + {w})
    ensures forall p :: p in done + {w} ==> next[p.uri] == Edges(p.uri, p.links, corpus)
  {
    var edges := PageEdges(w, corpus);
    EnterPage(graph, done, w, edges, webpages, (p: Webpage) => Edges(p.uri, p.links, corpus));
    next := graph[w.uri := edges];
  }

  /** The inner loop of `makeGraph`: the links of `w` other than its own URI
      that name a page of the corpus. */
  method PageEdges(w: Webpage, corpus: set<Uri>) returns (edges: set<Uri>)
    ensures edges == Edges(w.uri, w.links, corpus)
  {
    var links := w.links;
    edges := {};
    var i := 0;
    while i < |links|
      invariant i <= |links|
      invariant edges == Edges(w.uri, links[..i], corpus)
    {
      var link := links[i];
      if link != w.uri && link in corpus {
        edges := edges + {link};
      }
      assert links[..i + 1] == links[..i] + [link];
      i := i + 1;
    }
    assert links[..i] == w.links;
  }
}
