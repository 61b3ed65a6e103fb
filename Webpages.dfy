/** The parsed web pages both analyzers of project3 read. The page class is
    not part of this model: a page is the record of its URI, its outgoing
    links and its words, and two pages are the same page exactly when their
    URIs agree. */
module Webpages {
  type Uri = string

  datatype Webpage = Webpage(uri: Uri, links: seq<Uri>, words: seq<string>)

  /** A set of pages in which a URI identifies its page. */
  ghost predicate UniqueUris(pages: set<Webpage>) {
    forall p, q :: p in pages && q in pages && p.uri == q.uri ==> p == q
  }

  /** The URIs of the corpus: what `webpages.contains` answers for a link. */
  function Uris(pages: set<Webpage>): set<Uri>
  {
    set p | p in pages :: p.uri
  }

  /** Entering page `w`, not yet done, into a table keyed by URI keeps the
      entries of the pages already done: no other page has its URI. */
  lemma EnterPage<V>(table: map<Uri, V>, done: set<Webpage>, w: Webpage, v: V,
                     pages: set<Webpage>, entry: Webpage -> V)
    requires UniqueUris(pages) && done <= pages && w in pages && w !in done
    requires table.Keys == Uris(done)
    requires forall p :: p in done ==> table[p.uri] == entry(p)
    requires v == entry(w)
    ensures table[w.uri := v].Keys == Uris(done + {w})
    ensures forall p :: p in done + {w} ==> table[w.uri := v][p.uri] == entry(p)
  {
    assert Uris(done + {w}) == Uris(done) + {w.uri};
    forall p | p in done + {w}
      ensures table[w.uri := v][p.uri] == entry(p)
    {
      if p != w {
        assert p.uri != w.uri;
      }
    }
  }
}
