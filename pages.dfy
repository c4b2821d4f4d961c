/** What the page-by-page crawlers (crawl_book18.py, crawl_novels.py) share: the browser,
    seen as an oracle that answers the page load numbered t of the run, for a url, with
    `fetch(url, t)` and keeps the list of urls loaded; and the part of the store a run
    changes. */
module Pages {
  import opened Store
  import Xqbj

  /** A chapter link of a novel page: its trimmed text and its href. */
  datatype Link = Link(title: string, url: string)

  /** The two tables and the urls of the chapter pages loaded so far, in load order. */
  datatype World = World(novels: seq<Novel>, chapters: seq<Chapter>, loaded: seq<string>)

  /** What a run does not change: the body Chapter.save stores for a text, and the network. */
  datatype Env = Env(save: string -> string, fetch: (string, nat) -> Xqbj.Fetch)

  /** The environment of a run against a store whose filter words are `words`. */
  function EnvFor(words: seq<string>, fetch: (string, nat) -> Xqbj.Fetch): Env {
    Env((t: string) => Stored(t, words), fetch)
  }

  /** e saves as a store with filter words `words` does and loads from `fetch`; Stored is
      unfolded only where the code saves. */
  ghost predicate Serves(e: Env, words: seq<string>, fetch: (string, nat) -> Xqbj.Fetch) {
    && e.fetch == fetch
    && forall t {:trigger Stored(t, words)} :: e.save(t) == Stored(t, words)
  }

  lemma ServesEnvFor(words: seq<string>, fetch: (string, nat) -> Xqbj.Fetch)
    ensures Serves(EnvFor(words, fetch), words, fetch)
  {
  }

  class Browser {
    const fetch: (string, nat) -> Xqbj.Fetch
    var loaded: seq<string>

    constructor (fetch: (string, nat) -> Xqbj.Fetch)
      ensures this.fetch == fetch && loaded == []
    {
      this.fetch := fetch;
      loaded := [];
    }

    /** newPage, goto and the page's content script, as one load. */
    method Load(url: string) returns (f: Xqbj.Fetch)
      modifies this
      ensures f == fetch(url, |old(loaded)|) && loaded == old(loaded) + [url]
    {
      f := fetch(url, |loaded|);
      loaded := loaded + [url];
    }
  }

  /** The store and the browser's load list as one value. */
  function State(db: Db, b: Browser): World
    reads db, b
  {
    World(db.novels, db.chapters, b.loaded)
  }
}
