/** The text of a /metrics page and the gateway's scanner for it. */
module MetricsText {
  import opened Decimal
  import opened Words
  import opened Seqs

  const HITS := "coda_prefix_cache_hits_total"
  const QUERIES := "coda_prefix_cache_queries_total"
  const VLLM_HITS := "vllm:gpu_prefix_cache_hits_total"
  const VLLM_QUERIES := "vllm:gpu_prefix_cache_queries_total"

  // ---------- The printer ----------

  function Counter(name: string, value: nat): string {
    name + [' '] + Numeral(value)
  }

  /** A comment line, as in "# TYPE name counter". */
  function Comment(kind: string, name: string, text: string): string {
    kind + name + text
  }

  function PageLines(hits: nat, queries: nat): seq<string> {
    [Comment("# HELP ", HITS, " Prefix cache hits"),
     Comment("# TYPE ", HITS, " counter"),
     Counter(HITS, hits),
     Comment("# HELP ", QUERIES, " Prefix cache queries"),
     Comment("# TYPE ", QUERIES, " counter"),
     Counter(QUERIES, queries)]
  }

  function Joined(lines: seq<string>): string {
    if lines == [] then [] else lines[0] + ['\n'] + Joined(lines[1..])
  }

  // ---------- Scanning ----------

  /** unicode.IsSpace */
  predicate IsSpace(c: char) {
    var n := c as int;
    9 <= n <= 13 || n == 0x20 || n == 0x85 || n == 0xA0 || n == 0x1680 || 0x2000 <= n <= 0x200A
    || n == 0x2028 || n == 0x2029 || n == 0x202F || n == 0x205F || n == 0x3000
  }

  function TrimLeft(s: string): string {
    if s != [] && IsSpace(s[0]) then TrimLeft(s[1..]) else s
  }

  function TrimRight(s: string): string {
    if s != [] && IsSpace(s[|s| - 1]) then TrimRight(s[..|s| - 1]) else s
  }

  function TrimSpace(s: string): string {
    TrimRight(TrimLeft(s))
  }

  /** The length of the longest prefix of s without a stop. */
  function Until(s: string, stop: char -> bool): (k: nat)
    ensures k <= |s| && (k < |s| ==> stop(s[k])) && forall i :: 0 <= i < k ==> !stop(s[i])
  {
    if s == [] || stop(s[0]) then 0 else 1 + Until(s[1..], stop)
  }

  /** strings.Fields: the maximal runs without white space. */
  function Fields(s: string): seq<string>
    decreases |s|
  {
    if s == [] then []
    else if IsSpace(s[0]) then Fields(s[1..])
    else
      var k := Until(s, IsSpace);
      [s[..k]] + Fields(s[k..])
  }

  function DropCR(s: string): string {
    if s != [] && s[|s| - 1] == '\r' then s[..|s| - 1] else s
  }

  /** bufio.ScanLines: lines end at a newline; a last line without one counts if it is not empty. */
  function Lines(s: string): seq<string>
    decreases |s|
  {
    if s == [] then []
    else
      var k := Until(s, (c: char) => c == '\n');
      if k == |s| then [DropCR(s)] else [DropCR(s[..k])] + Lines(s[k + 1..])
  }

  // ---------- The parser ----------

  datatype Reading = Reading(hits: nat, queries: nat, ok: bool)

  function CounterValue(line: string): nat {
    var parts := Fields(line);
    if |parts| < 2 then 0 else ParseUint(parts[1]).Value()
  }

  function Read(r: Reading, raw: string): Reading {
    var line := TrimSpace(raw);
    if "#" <= line then r
    else if VLLM_HITS + " " <= line then Reading(CounterValue(line), r.queries, true)
    else if VLLM_QUERIES + " " <= line then Reading(r.hits, CounterValue(line), true)
    else if HITS + " " <= line then Reading(CounterValue(line), r.queries, true)
    else if QUERIES + " " <= line then Reading(r.hits, CounterValue(line), true)
    else r
  }

  function ReadAll(r: Reading, lines: seq<string>): Reading
    decreases |lines|
  {
    if lines == [] then r else ReadAll(Read(r, lines[0]), lines[1..])
  }

  function ParsePage(body: string): Reading {
    ReadAll(Reading(0, 0, false), Lines(body))
  }

  method ParseMetricCounter(line: string) returns (value: nat)
    ensures value == CounterValue(line)
  {
    var parts := Fields(line);
    if |parts| < 2 {
      return 0;
    }
    var ok: bool;
    value, ok := ParseUintLoop(parts[1]);
  }

  method ParsePrefixCacheMetrics(body: string) returns (hits: nat, queries: nat, ok: bool)
    ensures Reading(hits, queries, ok) == ParsePage(body)
  {
    hits, queries, ok := 0, 0, false;
    var lines := Lines(body);
    for k := 0 to |lines|
      invariant ReadAll(Reading(hits, queries, ok), lines[k..]) == ParsePage(body)
    {
      assert lines[k..][1..] == lines[k + 1..];
      var line := TrimSpace(lines[k]);
      if "#" <= line {
        continue;
      }
      if VLLM_HITS + " " <= line {
        hits := ParseMetricCounter(line);
        ok := true;
      } else if VLLM_QUERIES + " " <= line {
        queries := ParseMetricCounter(line);
        ok := true;
      } else if HITS + " " <= line {
        hits := ParseMetricCounter(line);
        ok := true;
      } else if QUERIES + " " <= line {
        queries := ParseMetricCounter(line);
        ok := true;
      }
    }
  }

  // ---------- Parsing undoes printing ----------

  lemma UntilBreak(a: string, b: string, stop: char -> bool)
    requires forall i :: 0 <= i < |a| ==> !stop(a[i])
    requires b == [] || stop(b[0])
    ensures Until(a + b, stop) == |a|
  {
    assert forall i :: 0 <= i < |a| ==> (a + b)[i] == a[i];
    assert b != [] ==> (a + b)[|a|] == b[0];
  }

  /** A line with no newline and no carriage return in it. */
  ghost predicate Plain(a: string) {
    forall i :: 0 <= i < |a| ==> a[i] != '\n' && a[i] != '\r'
  }

  lemma FirstLine(a: string, rest: string)
    requires Plain(a)
    ensures Lines(a + ['\n'] + rest) == [a] + Lines(rest)
  {
    var s := a + ['\n'] + rest;
    assert s == a + (['\n'] + rest);
    UntilBreak(a, ['\n'] + rest, (c: char) => c == '\n');
    var k := Until(s, (c: char) => c == '\n');
    assert k == |a| && s[..k] == a && s[k + 1..] == rest;
    assert DropCR(a) == a;
  }

  lemma {:induction false} LinesOfJoined(lines: seq<string>)
    requires forall i :: 0 <= i < |lines| ==> Plain(lines[i])
    ensures Lines(Joined(lines)) == lines
    decreases |lines|
  {
    if lines != [] {
      LinesOfJoined(lines[1..]);
      FirstLine(lines[0], Joined(lines[1..]));
    }
  }

  /** A word, a space and a numeral are two fields. */
  lemma TwoFields(name: string, value: nat)
    requires name != [] && forall i :: 0 <= i < |name| ==> !IsSpace(name[i])
    ensures Fields(Counter(name, value)) == [name, Numeral(value)]
  {
    var s, num := Counter(name, value), Numeral(value);
    assert s == name + ([' '] + num);
    UntilBreak(name, [' '] + num, IsSpace);
    assert s[0] == name[0] && s[..|name|] == name && s[|name|..] == [' '] + num;
    assert ([' '] + num)[1..] == num;
    UntilBreak(num, [], IsSpace);
    assert num + [] == num && num[|num|..] == [] && num[..|num|] == num;
    assert Fields(num) == [num] + Fields([]) == [num];
    assert Fields([' '] + num) == Fields(num);
    assert [name] + [num] == [name, num];
  }

  lemma CounterReads(name: string, value: nat)
    requires name != [] && (forall i :: 0 <= i < |name| ==> !IsSpace(name[i])) && value < TWO_64
    ensures TrimSpace(Counter(name, value)) == Counter(name, value)
    ensures CounterValue(Counter(name, value)) == value
    ensures name + " " <= Counter(name, value)
  {
    var s := Counter(name, value);
    assert s[0] == name[0] && s[|s| - 1] == Numeral(value)[|Numeral(value)| - 1];
    TwoFields(name, value);
    PrintParse(value);
    assert s[..|name| + 1] == name + " ";
  }

  // ---------- The four counters ----------

  lemma HitsRead(r: Reading, value: nat)
    requires value < TWO_64
    ensures Read(r, Counter(HITS, value)) == Reading(value, r.queries, true)
  {
    CounterReads(HITS, value);
    var line := Counter(HITS, value);
    assert line[0] == 'c' && "#"[0] == '#' && (VLLM_HITS + " ")[0] == 'v' && (VLLM_QUERIES + " ")[0] == 'v';
  }

  lemma QueriesRead(r: Reading, value: nat)
    requires value < TWO_64
    ensures Read(r, Counter(QUERIES, value)) == Reading(r.hits, value, true)
  {
    CounterReads(QUERIES, value);
    var line := Counter(QUERIES, value);
    assert line[0] == 'c' && "#"[0] == '#' && (VLLM_HITS + " ")[0] == 'v' && (VLLM_QUERIES + " ")[0] == 'v';
    assert line[18] == 'q' && (HITS + " ")[18] == 'h';
  }

  lemma VllmHitsRead(r: Reading, value: nat)
    requires value < TWO_64
    ensures Read(r, Counter(VLLM_HITS, value)) == Reading(value, r.queries, true)
  {
    CounterReads(VLLM_HITS, value);
    var line := Counter(VLLM_HITS, value);
    assert line[0] == 'v' && "#"[0] == '#';
  }

  lemma VllmQueriesRead(r: Reading, value: nat)
    requires value < TWO_64
    ensures Read(r, Counter(VLLM_QUERIES, value)) == Reading(r.hits, value, true)
  {
    CounterReads(VLLM_QUERIES, value);
    var line := Counter(VLLM_QUERIES, value);
    assert line[0] == 'v' && "#"[0] == '#';
    assert line[22] == 'q' && (VLLM_HITS + " ")[22] == 'h';
  }

  // ---------- Pages in general ----------

  /** A line of a page: a comment, or one of the counters under either of its names. */
  datatype MetricLine = Note(text: string) | Hits(vllm: bool, value: nat) | Queries(vllm: bool, value: nat)

  ghost predicate Printable(l: MetricLine) {
    match l
    case Note(text) => Plain(text)
    case Hits(_, value) => value < TWO_64
    case Queries(_, value) => value < TWO_64
  }

  function HitsName(vllm: bool): string {
    if vllm then "vllm:gpu_prefix_cache_hits_total" else "coda_prefix_cache_hits_total"
  }

  function QueriesName(vllm: bool): string {
    if vllm then "vllm:gpu_prefix_cache_queries_total" else "coda_prefix_cache_queries_total"
  }

  function TextOf(l: MetricLine): string {
    match l
    case Note(text) => "#" + text
    case Hits(vllm, value) => Counter(HitsName(vllm), value)
    case Queries(vllm, value) => Counter(QueriesName(vllm), value)
  }

  function TextsOf(lines: seq<MetricLine>): (r: seq<string>)
    ensures |r| == |lines|
  {
    seq(|lines|, i requires 0 <= i < |lines| => TextOf(lines[i]))
  }

  function After(r: Reading, l: MetricLine): Reading {
    match l
    case Note(_) => r
    case Hits(_, value) => Reading(value, r.queries, true)
    case Queries(_, value) => Reading(r.hits, value, true)
  }

  /** What a page says: the last line of either counter wins, a missing counter is 0. */
  function Meaning(lines: seq<MetricLine>): Reading {
    if lines == [] then Reading(0, 0, false) else After(Meaning(lines[..|lines| - 1]), lines[|lines| - 1])
  }

  lemma {:induction false} TrimKeepsHead(s: string)
    requires s != [] && !IsSpace(s[0])
    ensures TrimRight(s) != [] && TrimRight(s)[0] == s[0]
    decreases |s|
  {
    if IsSpace(s[|s| - 1]) {
      TrimKeepsHead(s[..|s| - 1]);
    }
  }

  lemma NoteIsPassedOver(r: Reading, text: string)
    ensures Read(r, "#" + text) == r
  {
    var s := "#" + text;
    TrimKeepsHead(s);
    assert TrimSpace(s)[..1] == "#";
  }

  lemma CounterLineIsRead(r: Reading, l: MetricLine)
    requires Printable(l) && !l.Note?
    ensures Read(r, TextOf(l)) == After(r, l)
  {
    if l.Hits? {
      if l.vllm {
        VllmHitsRead(r, l.value);
      } else {
        HitsRead(r, l.value);
      }
    } else if l.vllm {
      VllmQueriesRead(r, l.value);
    } else {
      QueriesRead(r, l.value);
    }
  }

  lemma CounterIsPlain(name: string, value: nat)
    requires Plain(name)
    ensures Plain(Counter(name, value))
  {
  }

  lemma HitsIsPlain()
    ensures Plain(HITS)
  {
  }

  lemma QueriesIsPlain()
    ensures Plain(QUERIES)
  {
  }

  lemma VllmHitsIsPlain()
    ensures Plain(VLLM_HITS)
  {
  }

  lemma VllmQueriesIsPlain()
    ensures Plain(VLLM_QUERIES)
  {
  }

  /** The text is one line, and the parser takes it for this line. */
  ghost predicate Says(text: string, l: MetricLine) {
    Plain(text) && forall r: Reading :: Read(r, text) == After(r, l)
  }

  lemma TextSays(l: MetricLine)
    requires Printable(l)
    ensures Says(TextOf(l), l)
  {
    match l
    case Note(text) => NoteSays(text);
    case Hits(vllm, value) =>
      HitsIsPlain();
      VllmHitsIsPlain();
      CounterSays(if vllm then VLLM_HITS else HITS, l);
    case Queries(vllm, value) =>
      QueriesIsPlain();
      VllmQueriesIsPlain();
      CounterSays(if vllm then VLLM_QUERIES else QUERIES, l);
  }

  lemma NoteSays(text: string)
    requires Plain(text)
    ensures Says("#" + text, Note(text))
  {
    forall r: Reading ensures Read(r, "#" + text) == r {
      NoteIsPassedOver(r, text);
    }
  }

  lemma CounterSays(name: string, l: MetricLine)
    requires Printable(l) && !l.Note? && Plain(name) && TextOf(l) == Counter(name, l.value)
    ensures Says(TextOf(l), l)
  {
    CounterIsPlain(name, l.value);
    forall r: Reading ensures Read(r, TextOf(l)) == After(r, l) {
      CounterLineIsRead(r, l);
    }
  }

  lemma {:induction false} ReadAllSnoc(r: Reading, lines: seq<string>, line: string)
    ensures ReadAll(r, lines + [line]) == Read(ReadAll(r, lines), line)
    decreases |lines|
  {
    if lines == [] {
      assert [] + [line] == [line] && [line][1..] == [];
    } else {
      ReadAllSnoc(Read(r, lines[0]), lines[1..], line);
      assert (lines + [line])[1..] == lines[1..] + [line];
    }
  }

  lemma {:induction false} LinesAreRead(texts: seq<string>, lines: seq<MetricLine>)
    requires |texts| == |lines| && forall i :: 0 <= i < |lines| ==> Says(texts[i], lines[i])
    ensures ReadAll(Reading(0, 0, false), texts) == Meaning(lines)
    decreases |lines|
  {
    if lines != [] {
      var last := |lines| - 1;
      LinesAreRead(texts[..last], lines[..last]);
      ReadAllSnoc(Reading(0, 0, false), texts[..last], texts[last]);
      assert texts == texts[..last] + [texts[last]];
      assert Says(texts[last], lines[last]);
    }
  }

  /** The gateway's parser reads every page of comments and counters, under either name, as what it says. */
  lemma EveryPageIsRead(lines: seq<MetricLine>)
    requires forall i :: 0 <= i < |lines| ==> Printable(lines[i])
    ensures ParsePage(Joined(TextsOf(lines))) == Meaning(lines)
  {
    var texts := TextsOf(lines);
    forall i | 0 <= i < |lines| ensures Says(texts[i], lines[i]) {
      TextSays(lines[i]);
    }
    LinesAreRead(texts, lines);
    LinesOfJoined(texts);
  }

  // ---------- Padding ----------

  /** White space that may occur within a line of bytes. */
  predicate Blank(c: char) {
    c in {' ', '\t', '\r', '\U{0B}', '\U{0C}', '\U{85}', '\U{A0}'}
  }

  lemma {:induction false} TrimLeftPadding(pad: string, s: string)
    requires (forall i :: 0 <= i < |pad| ==> Blank(pad[i])) && s != [] && !IsSpace(s[0])
    ensures TrimLeft(pad + s) == s
    decreases |pad|
  {
    if pad == [] {
      assert pad + s == s;
    } else {
      assert (pad + s)[1..] == pad[1..] + s;
      TrimLeftPadding(pad[1..], s);
    }
  }

  lemma {:induction false} TrimRightPadding(s: string, pad: string)
    requires (forall i :: 0 <= i < |pad| ==> Blank(pad[i])) && s != [] && !IsSpace(s[|s| - 1])
    ensures TrimRight(s + pad) == s
    decreases |pad|
  {
    if pad == [] {
      assert s + pad == s;
    } else {
      assert (s + pad)[..|s + pad| - 1] == s + pad[..|pad| - 1];
      TrimRightPadding(s, pad[..|pad| - 1]);
    }
  }

  /** White space around a line makes no difference. */
  lemma PaddingIsIgnored(r: Reading, before: string, s: string, after: string)
    requires (forall i :: 0 <= i < |before| ==> Blank(before[i])) && forall i :: 0 <= i < |after| ==> Blank(after[i])
    requires s != [] && !IsSpace(s[0]) && !IsSpace(s[|s| - 1])
    ensures Read(r, before + (s + after)) == Read(r, s)
  {
    TrimLeftPadding(before, s + after);
    TrimRightPadding(s, after);
    assert TrimSpace(s) == s;
  }

  // ---------- The printed page ----------

  function NoteOf(kind: string, name: string, text: string): MetricLine {
    Note(kind + name + text)
  }

  function PageOf(hits: nat, queries: nat): seq<MetricLine> {
    [NoteOf(" HELP ", HITS, " Prefix cache hits"), NoteOf(" TYPE ", HITS, " counter"), Hits(false, hits),
     NoteOf(" HELP ", QUERIES, " Prefix cache queries"), NoteOf(" TYPE ", QUERIES, " counter"), Queries(false, queries)]
  }

  lemma CommentIsNote(kind: string, hashed: string, name: string, text: string)
    requires hashed == "#" + kind
    ensures TextOf(NoteOf(kind, name, text)) == Comment(hashed, name, text)
  {
    Concat3("#", kind + name, text);
    Concat3("#", kind, name);
  }

  lemma NoteIsPrintable(kind: string, name: string, text: string)
    requires Plain(kind) && Plain(name) && Plain(text)
    ensures Printable(NoteOf(kind, name, text))
  {
  }

  lemma HitsNotes()
    ensures TextOf(NoteOf(" HELP ", HITS, " Prefix cache hits")) == Comment("# HELP ", HITS, " Prefix cache hits")
    ensures TextOf(NoteOf(" TYPE ", HITS, " counter")) == Comment("# TYPE ", HITS, " counter")
    ensures Printable(NoteOf(" HELP ", HITS, " Prefix cache hits")) && Printable(NoteOf(" TYPE ", HITS, " counter"))
  {
    HitsIsPlain();
    CommentIsNote(" HELP ", "# HELP ", HITS, " Prefix cache hits");
    CommentIsNote(" TYPE ", "# TYPE ", HITS, " counter");
    NoteIsPrintable(" HELP ", HITS, " Prefix cache hits");
    NoteIsPrintable(" TYPE ", HITS, " counter");
  }

  lemma QueriesNotes()
    ensures TextOf(NoteOf(" HELP ", QUERIES, " Prefix cache queries")) == Comment("# HELP ", QUERIES, " Prefix cache queries")
    ensures TextOf(NoteOf(" TYPE ", QUERIES, " counter")) == Comment("# TYPE ", QUERIES, " counter")
    ensures Printable(NoteOf(" HELP ", QUERIES, " Prefix cache queries")) && Printable(NoteOf(" TYPE ", QUERIES, " counter"))
  {
    QueriesIsPlain();
    CommentIsNote(" HELP ", "# HELP ", QUERIES, " Prefix cache queries");
    CommentIsNote(" TYPE ", "# TYPE ", QUERIES, " counter");
    NoteIsPrintable(" HELP ", QUERIES, " Prefix cache queries");
    NoteIsPrintable(" TYPE ", QUERIES, " counter");
  }

  lemma PageIsPrinted(hits: nat, queries: nat)
    requires hits < TWO_64 && queries < TWO_64
    ensures TextsOf(PageOf(hits, queries)) == PageLines(hits, queries)
    ensures forall i :: 0 <= i < |PageOf(hits, queries)| ==> Printable(PageOf(hits, queries)[i])
  {
    HitsNotes();
    QueriesNotes();
  }

  lemma MeaningSnoc(lines: seq<MetricLine>, l: MetricLine)
    ensures Meaning(lines + [l]) == After(Meaning(lines), l)
  {
    assert (lines + [l])[..|lines|] == lines;
  }

  lemma MeaningOfThree(lines: seq<MetricLine>, a: MetricLine, b: MetricLine, c: MetricLine)
    requires a.Note? && b.Note?
    ensures Meaning(lines + [a, b, c]) == After(Meaning(lines), c)
  {
    MeaningSnoc(lines, a);
    MeaningSnoc(lines + [a], b);
    MeaningSnoc(lines + [a] + [b], c);
    assert lines + [a, b, c] == lines + [a] + [b] + [c];
  }

  /** The gateway's parser recovers exactly the pair a page was printed from. */
  lemma PageRoundTrip(hits: nat, queries: nat)
    requires hits < TWO_64 && queries < TWO_64
    ensures ParsePage(Joined(PageLines(hits, queries))) == Reading(hits, queries, true)
  {
    var page := PageOf(hits, queries);
    PageIsPrinted(hits, queries);
    EveryPageIsRead(page);
    MeaningOfThree([], page[0], page[1], page[2]);
    MeaningOfThree([page[0], page[1], page[2]], page[3], page[4], page[5]);
    assert [] + [page[0], page[1], page[2]] == [page[0], page[1], page[2]];
    assert page == [page[0], page[1], page[2]] + [page[3], page[4], page[5]];
  }
}
