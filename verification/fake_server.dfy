/** The stand-in engine: atomic hit and query counters under concurrent handlers. */
module FakeServer {
  import opened Decimal
  import opened Words
  import opened MetricsText

  type Id = nat

  /** A chat handler has counted its query, and may still have to count a hit. */
  datatype Chat = Counted(hit: bool) | Served

  /** A metrics handler loads the hits first and the queries afterwards. */
  datatype Scrape = LoadedHits(hits: nat) | Printed(hits: nat, queries: nat)

  /** The two 64-bit counters and the handlers. started counts chat requests without wrapping around. */
  datatype Server = Server(hits: nat, queries: nat, chats: map<Id, Chat>, scrapes: map<Id, Scrape>, started: nat)

  datatype Event = CountQuery(chat: Id, hit: bool) | CountHit(chat: Id) | LoadHits(scrape: Id) | LoadQueries(scrape: Id)

  predicate Enabled(s: Server, e: Event) {
    match e
    case CountQuery(id, _) => id !in s.chats
    case CountHit(id) => id in s.chats && s.chats[id] == Counted(true)
    case LoadHits(id) => id !in s.scrapes
    case LoadQueries(id) => id in s.scrapes && s.scrapes[id].LoadedHits?
  }

  function Apply(s: Server, e: Event): Server
    requires Enabled(s, e)
  {
    match e
    case CountQuery(id, hit) =>
      s.(queries := (s.queries + 1) % TWO_64, chats := s.chats[id := Counted(hit)], started := s.started + 1)
    case CountHit(id) => s.(hits := (s.hits + 1) % TWO_64, chats := s.chats[id := Served])
    case LoadHits(id) => s.(scrapes := s.scrapes[id := LoadedHits(s.hits)])
    case LoadQueries(id) => s.(scrapes := s.scrapes[id := Printed(s.scrapes[id].hits, s.queries)])
  }

  predicate ValidRun(s: Server, es: seq<Event>)
    decreases |es|
  {
    es == [] || (Enabled(s, es[0]) && ValidRun(Apply(s, es[0]), es[1..]))
  }

  function Run(s: Server, es: seq<Event>): Server
    requires ValidRun(s, es)
    decreases |es|
  {
    if es == [] then s else Run(Apply(s, es[0]), es[1..])
  }

  function Initial(): Server {
    Server(0, 0, map[], map[], 0)
  }

  /** The handlers that have counted their query and will count a hit. */
  function Owing(chats: map<Id, Chat>): set<Id> {
    set id | id in chats && chats[id] == Counted(true)
  }

  ghost predicate Sound(s: Server) {
    s.started < TWO_64 ==>
      && s.queries == s.started
      && s.hits + |Owing(s.chats)| <= s.queries
      && forall id :: id in s.scrapes ==>
           match s.scrapes[id]
           case LoadedHits(h) => h <= s.hits
           case Printed(h, q) => h <= q < TWO_64
  }

  lemma OwingGrows(chats: map<Id, Chat>, id: Id, hit: bool)
    requires id !in chats
    ensures |Owing(chats[id := Counted(hit)])| <= |Owing(chats)| + 1
  {
    assert Owing(chats[id := Counted(hit)]) == Owing(chats) + if hit then {id} else {};
  }

  lemma OwingShrinks(chats: map<Id, Chat>, id: Id)
    requires id in chats && chats[id] == Counted(true)
    ensures |Owing(chats[id := Served])| == |Owing(chats)| - 1
  {
    assert id in Owing(chats);
    assert Owing(chats[id := Served]) == Owing(chats) - {id};
  }

  lemma StepSound(s: Server, e: Event)
    requires Sound(s) && Enabled(s, e)
    ensures Sound(Apply(s, e))
  {
    var t := Apply(s, e);
    if t.started < TWO_64 {
      if e.CountQuery? {
        OwingGrows(s.chats, e.chat, e.hit);
        assert t.queries == s.queries + 1;
      } else if e.CountHit? {
        OwingShrinks(s.chats, e.chat);
        assert t.hits == s.hits + 1;
      }
      forall id | id in t.scrapes
        ensures match t.scrapes[id]
                case LoadedHits(h) => h <= t.hits
                case Printed(h, q) => h <= q < TWO_64
      {
        if id in s.scrapes {
          assert s.scrapes[id].LoadedHits? ==> s.scrapes[id].hits <= s.hits;
        }
      }
    }
  }

  lemma {:induction false} RunSound(s: Server, es: seq<Event>)
    requires Sound(s) && ValidRun(s, es)
    ensures Sound(Run(s, es))
    decreases |es|
  {
    if es != [] {
      StepSound(s, es[0]);
      RunSound(Apply(s, es[0]), es[1..]);
    }
  }

  /**
   * In every interleaving of chat and metrics handlers with fewer than 2^64 chats, a printed page
   * shows no more hits than queries, the gateway's parser reads exactly the printed pair back, and
   * the rate it computes lies between 0 and 1.
   */
  lemma ScrapedRateIsARate(es: seq<Event>, id: Id)
    requires ValidRun(Initial(), es) && Run(Initial(), es).started < TWO_64
    requires id in Run(Initial(), es).scrapes && Run(Initial(), es).scrapes[id].Printed?
    ensures var page := Run(Initial(), es).scrapes[id];
            && page.hits <= page.queries < TWO_64
            && ParsePage(Joined(PageLines(page.hits, page.queries))) == Reading(page.hits, page.queries, true)
            && (page.queries > 0 ==> 0.0 <= page.hits as real / page.queries as real <= 1.0)
  {
    RunSound(Initial(), es);
    var page := Run(Initial(), es).scrapes[id];
    PageRoundTrip(page.hits, page.queries);
    if page.queries > 0 {
      RatioOfLess(page.hits as real, page.queries as real);
    }
  }

  lemma RatioOfLess(a: real, b: real)
    requires 0.0 <= a <= b && b > 0.0
    ensures 0.0 <= a / b <= 1.0
  {
  }

  /**
   * The order of the two loads matters: loading the queries first could print more hits than queries,
   * since a whole chat request fits between the loads.
   */
  lemma OtherOrderWouldFail(s: Server, id: Id)
    requires s.hits == s.queries < TWO_64 - 1 && id !in s.chats
    ensures var es := [CountQuery(id, true), CountHit(id)];
            ValidRun(s, es) && Run(s, es).hits > s.queries
  {
    var es := [CountQuery(id, true), CountHit(id)];
    var t := Apply(s, es[0]);
    assert es[1..] == [CountHit(id)] && es[1..][1..] == [];
    assert ValidRun(t, es[1..]) && Run(t, es[1..]) == Apply(t, CountHit(id));
  }

  /** The page as the handler writes it from the two loaded values. */
  method WritePage(hits: nat, queries: nat) returns (page: string)
    requires hits < TWO_64 && queries < TWO_64
    ensures page == Joined(PageLines(hits, queries))
  {
    var lines := PageLines(hits, queries);
    page := "# HELP " + HITS + " Prefix cache hits" + ['\n'];
    page := page + ("# TYPE " + HITS + " counter" + ['\n']);
    var text := Itoa(hits);
    page := page + (HITS + [' '] + text + ['\n']);
    page := page + ("# HELP " + QUERIES + " Prefix cache queries" + ['\n']);
    page := page + ("# TYPE " + QUERIES + " counter" + ['\n']);
    text := Itoa(queries);
    page := page + (QUERIES + [' '] + text + ['\n']);
    assert lines[..0] == [] && lines[..6] == lines;
    forall k | 0 <= k < 6 ensures Joined(lines[..k + 1]) == Joined(lines[..k]) + (lines[k] + ['\n']) {
      JoinedSnoc(lines[..k], lines[k]);
      assert lines[..k + 1] == lines[..k] + [lines[k]];
    }
    assert Joined(lines[..0 + 1]) == lines[0] + ['\n'];
    assert Joined(lines[..1 + 1]) == Joined(lines[..1]) + (lines[1] + ['\n']);
    assert Joined(lines[..2 + 1]) == Joined(lines[..2]) + (lines[2] + ['\n']);
    assert Joined(lines[..3 + 1]) == Joined(lines[..3]) + (lines[3] + ['\n']);
    assert Joined(lines[..4 + 1]) == Joined(lines[..4]) + (lines[4] + ['\n']);
    assert Joined(lines[..5 + 1]) == Joined(lines[..5]) + (lines[5] + ['\n']);
  }

  lemma {:induction false} JoinedSnoc(lines: seq<string>, line: string)
    ensures Joined(lines + [line]) == Joined(lines) + (line + ['\n'])
    decreases |lines|
  {
    if lines == [] {
      assert [line][1..] == [];
      assert Joined([line]) == line + ['\n'] + [];
    } else {
      JoinedSnoc(lines[1..], line);
      assert (lines + [line])[1..] == lines[1..] + [line];
    }
  }
}
