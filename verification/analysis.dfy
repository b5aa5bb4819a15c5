/** The decision logic of `analyze_book` in `modules/analysis.py`: which
    parts of the report are produced for a configuration, the frequency
    threshold of the word cloud, the per-tag tables of the most frequent
    entities, and when the interaction graph is built and drawn. The
    rendering itself is not modelled; the report records what would be
    shown. */
module Analysis {
  import opened Wrappers
  import opened Dicts
  import opened Sorting
  import opened Stats
  import opened Interactions

  /** Rows shown per entity table. */
  const TableRows: nat := 10

  /** `config["wordcloud"]` when enabled: the parts of speech and the
      minimum frequency. */
  datatype CloudSettings = CloudSettings(pos: set<string>, minFreq: int)

  /** The configuration dictionary. A missing or disabled word cloud is
      `None`; `ner` is the selected tag set when present; a missing `graph`
      flag reads as false and a missing `context_size` as 1. */
  datatype Config = Config(
    wordcloud: Option<CloudSettings>,
    ner: Option<set<string>>,
    graph: Option<bool>,
    contextSize: Option<nat>)

  /** `config.get("ner", False)` is truthy: present and non-empty. */
  predicate NerOn(cfg: Config) {
    cfg.ner.Some? && cfg.ner.value != {}
  }

  /** The keys of `d` whose count is at least `minFreq`, in order. */
  function FilterKeys(keys: seq<string>, d: Dict<string, nat>, minFreq: int): (ks: seq<string>)
    ensures forall w :: w in ks <==> w in keys && d.Get(w, 0) >= minFreq
    ensures |ks| <= |keys|
  {
    if keys == [] then []
    else
      var rest := FilterKeys(keys[1..], d, minFreq);
      assert forall w :: w in keys <==> w == keys[0] || w in keys[1..];
      if d.Get(keys[0], 0) >= minFreq then [keys[0]] + rest else rest
  }

  lemma {:induction false} FilterKeysDistinct(keys: seq<string>, d: Dict<string, nat>, minFreq: int)
    requires Distinct(keys)
    ensures Distinct(FilterKeys(keys, d, minFreq))
    decreases |keys|
  {
    if keys != [] {
      var rest := keys[1..];
      assert Distinct(rest) by {
        forall i, j | 0 <= i < j < |rest| ensures rest[i] != rest[j] {
          assert rest[i] == keys[i + 1] && rest[j] == keys[j + 1];
        }
      }
      assert keys[0] !in rest by {
        forall i | 0 <= i < |rest| ensures rest[i] != keys[0] {
          assert rest[i] == keys[i + 1];
        }
      }
      FilterKeysDistinct(rest, d, minFreq);
    }
  }

  /** `{word: freq for word, freq in freqs.items() if freq >= min_freq}`:
      exactly the words counted at least `minFreq` times, with their counts. */
  function FilterMin(d: Dict<string, nat>, minFreq: int): (r: Dict<string, nat>)
    requires d.Valid()
    ensures r.Valid()
    ensures forall w :: w in r.vals <==> w in d.vals && d.vals[w] >= minFreq
    ensures forall w :: w in r.vals ==> r.vals[w] == d.vals[w]
  {
    FilterKeysDistinct(d.keys, d, minFreq);
    Dict(FilterKeys(d.keys, d, minFreq), map w | w in d.vals && d.vals[w] >= minFreq :: d.vals[w])
  }

  /** `entities.items()` of one tag, in insertion order. */
  function Items(d: Dict<string, nat>): (ps: seq<(string, nat)>)
    ensures |ps| == |d.keys|
    ensures forall i :: 0 <= i < |ps| ==> ps[i] == (d.keys[i], d.Get(d.keys[i], 0))
  {
    seq(|d.keys|, i requires 0 <= i < |d.keys| => (d.keys[i], d.Get(d.keys[i], 0)))
  }

  function Count(p: (string, nat)): int {
    p.1
  }

  /** `sorted(entities.items(), key=lambda x: x[1], reverse=True)[:10]`. */
  function Table(d: Dict<string, nat>): seq<(string, nat)> {
    Take(SortDesc(Items(d), Count), TableRows)
  }

  /** An entity table has `min(10, n)` rows in descending count order, each
      row a different key of the tag with its count, and no key left out of
      it has a larger count than a row shown. */
  lemma TableMeaning(d: Dict<string, nat>)
    requires d.Valid()
    ensures var t := Table(d);
            && |t| == (if |d.keys| <= TableRows then |d.keys| else TableRows)
            && SortedDesc(t, Count)
            && (forall i :: 0 <= i < |t| ==> t[i].0 in d.vals && t[i].1 == d.vals[t[i].0])
            && (forall p, i :: p in Items(d) && p !in t && 0 <= i < |t| ==> t[i].1 >= p.1)
            && (forall i, j :: 0 <= i < j < |t| ==> t[i].0 != t[j].0)
  {
    var items := Items(d);
    var t := Table(d);
    TopSorted(items, Count, TableRows);
    forall i, j | 0 <= i < j < |items| ensures items[i] != items[j] {
      assert items[i].0 == d.keys[i] && items[j].0 == d.keys[j];
    }
    SubDistinct(t, items);
    forall i | 0 <= i < |t| ensures t[i].0 in d.vals && t[i].1 == d.vals[t[i].0] {
      var j :| 0 <= j < |items| && items[j] == t[i];
    }
    forall p, i | p in items && p !in t && 0 <= i < |t| ensures t[i].1 >= p.1 {
      TopBeats(items, Count, TableRows, p, i);
    }
  }

  /** Rows of equal count keep the order in which the entities were first
      seen. */
  lemma TableStable(d: Dict<string, nat>, v: int)
    ensures KeyClass(SortDesc(Items(d), Count), Count, v) == KeyClass(Items(d), Count, v)
  {
    SortDescStable(Items(d), Count, v);
  }

  /** One table per catalog tag, in catalog order. */
  function Tables(cat: Catalog): (ts: seq<(string, seq<(string, nat)>)>)
    ensures |ts| == |cat.keys|
    ensures forall i :: 0 <= i < |ts| ==> ts[i].0 == cat.keys[i]
    ensures forall i :: 0 <= i < |ts| ==> ts[i].1 == Table(cat.Get(cat.keys[i], Empty()))
  {
    seq(|cat.keys|, i requires 0 <= i < |cat.keys| => (cat.keys[i], Table(cat.Get(cat.keys[i], Empty()))))
  }

  /** What the graph section ends with. */
  datatype GraphStage =
    | NerRequired             // the error shown when NER is off; the function returns
    | GraphOff                // the graph flag is off
    | Drawn(graph: Graph)     // a graph with at least one node is visualised
    | NoInteractions          // the graph has no nodes
    | Crashed(key: string)    // `split(" - ")` raised ValueError on this pair string

  /** What `analyze_book` shows: the filtered word frequencies when the word
      cloud is on (an empty one means the "not enough words" notice), the
      entity tables when NER is on (empty means "no entities"), and the end
      of the graph section. */
  datatype Report = Report(
    cloud: Option<Dict<string, nat>>,
    tables: Option<seq<(string, seq<(string, nat)>)>>,
    graph: GraphStage)

  /** How the graph section ends, given whether NER is on, whether the
      graph flag is set, and what building the graph gives. The graph is
      attempted exactly when both hold; without NER the error is shown
      whatever the flag. A graph is drawn exactly when it was built and has
      a node. */
  function Stage(nerOn: bool, graphOn: bool, o: Outcome): (st: GraphStage)
    ensures st == NerRequired <==> !nerOn
    ensures st == GraphOff <==> nerOn && !graphOn
    ensures nerOn && graphOn ==>
              && (st.Drawn? <==> o.Built? && o.graph.nodes != {})
              && (st.Drawn? ==> st.graph == o.graph)
              && (st.NoInteractions? <==> o.Built? && o.graph.nodes == {})
              && (st.Crashed? <==> o.UnpackError?)
  {
    if !nerOn then NerRequired
    else if !graphOn then GraphOff
    else if o.UnpackError? then Crashed(o.key)
    else if |o.graph.nodes| > 0 then Drawn(o.graph)
    else NoInteractions
  }

  /** The graph section of `analyze_book`: the graph is built with the
      configured window, 1 when unset. */
  function GraphSection(m: Morph, arrange: set<string> -> seq<string>, text: string, spans: seq<Span>, cfg: Config)
    : GraphStage
  {
    var nerOn := NerOn(cfg);
    Stage(nerOn, cfg.graph.GetOr(false),
          if nerOn then CreateGraph(m, arrange, text, spans, cfg.ner.value, cfg.contextSize.GetOr(1))
          else Built(EmptyGraph))
  }

  /** `analyze_book(text, title, author, config)` with the NER spans and the
      spaCy tokens of `text` as inputs. Entity tables appear exactly when
      NER is on, one per catalog tag in catalog order, each for a selected
      tag. */
  function Analyze(m: Morph, arrange: set<string> -> seq<string>, text: string, tokens: seq<Token>,
                   spans: seq<Span>, cfg: Config): (r: Report)
    ensures r.graph == GraphSection(m, arrange, text, spans, cfg)
    ensures r.cloud.Some? <==> cfg.wordcloud.Some?
    ensures r.tables.Some? <==> NerOn(cfg)
    ensures r.tables.Some? ==>
              var cat := Extract(m, spans, cfg.ner.value, DefaultMinLength);
              && |r.tables.value| == |cat.keys|
              && forall i :: 0 <= i < |r.tables.value| ==>
                   && r.tables.value[i].0 == cat.keys[i] && r.tables.value[i].0 in cfg.ner.value
                   && r.tables.value[i].1 == Table(cat.Get(cat.keys[i], Empty()))
  {
    var cloud :=
      match cfg.wordcloud
      case None => None
      case Some(s) => Some(FilterMin(WordFrequencies(m, tokens, Some(s.pos), DefaultMinWordLen), s.minFreq));
    var tables :=
      if NerOn(cfg) then Some(Tables(Extract(m, spans, cfg.ner.value, DefaultMinLength))) else None;
    Report(cloud, tables, GraphSection(m, arrange, text, spans, cfg))
  }

  /** The word cloud holds exactly the lower-cased lemmas kept at least
      `minFreq` times (and at least once) under the chosen parts of speech,
      with their counts. */
  lemma AnalyzeCloud(m: Morph, arrange: set<string> -> seq<string>, text: string, tokens: seq<Token>,
                     spans: seq<Span>, cfg: Config, w: string)
    requires cfg.wordcloud.Some?
    ensures var r := Analyze(m, arrange, text, tokens, spans, cfg);
            var s := cfg.wordcloud.value;
            var n := KeptWith(m, s.pos, DefaultMinWordLen, tokens, w);
            && r.cloud.Some?
            && (w in r.cloud.value.vals <==> n >= 1 && n >= s.minFreq)
            && (w in r.cloud.value.vals ==> r.cloud.value.vals[w] == n)
  {
    var s := cfg.wordcloud.value;
    var f := WordFrequencies(m, tokens, Some(s.pos), DefaultMinWordLen);
    assert f.Get(w, 0) == KeptWith(m, s.pos, DefaultMinWordLen, tokens, w);
  }

  /** Every row of a shown entity table names an entity of its tag with the
      number of admitted NER spans carrying that tag and entity, which is
      at least one. */
  lemma AnalyzeTableRows(m: Morph, arrange: set<string> -> seq<string>, text: string, tokens: seq<Token>,
                         spans: seq<Span>, cfg: Config, i: nat, j: nat)
    requires NerOn(cfg)
    ensures var r := Analyze(m, arrange, text, tokens, spans, cfg);
            var cat := Extract(m, spans, cfg.ner.value, DefaultMinLength);
            i < |r.tables.value| && j < |r.tables.value[i].1| ==>
              var row := r.tables.value[i].1[j];
              && row.1 == multiset(Admitted(m, cfg.ner.value, DefaultMinLength, spans))[(cat.keys[i], row.0)]
              && row.1 >= 1
  {
    var r := Analyze(m, arrange, text, tokens, spans, cfg);
    var cat := Extract(m, spans, cfg.ner.value, DefaultMinLength);
    if i < |r.tables.value| && j < |r.tables.value[i].1| {
      var tag := cat.keys[i];
      assert tag in cat.vals;
      var d := cat.vals[tag];
      assert r.tables.value[i].1 == Table(d);
      TableMeaning(d);
      var row := Table(d)[j];
      ExtractCounts(m, spans, cfg.ner.value, DefaultMinLength, tag, row.0);
    }
  }
}
