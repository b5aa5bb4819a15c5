/** `create_character_interaction_graph` of `modules/analysis.py`: the
    windowed co-occurrence tally over the text's sentences and its reduction
    to a weighted undirected graph.

    Python's set iteration order (the order of `list(characters_in_context)`)
    is not modelled: it is a parameter `arrange` that lists each set of names
    once each, in some order. The pair strings `"a - b"` therefore have an
    arbitrary orientation, and the properties below hold for every such
    order. */
module Interactions {
  import opened Wrappers
  import opened Strings
  import opened Dicts
  import opened Sorting
  import opened Stats

  /** The separator of the pair strings `f"{a} - {b}"`. */
  const Joiner: string := " - "

  /** Entities kept per tag before the interactions are filtered. */
  const TopK: nat := 10

  /** `f"{a} - {b}"`. */
  function PairKey(a: string, b: string): string {
    a + Joiner + b
  }

  // ---------------------------------------------------------------------
  // The entity index: tag -> normalised key -> display name

  type Index = Dict<string, Dict<string, string>>

  ghost predicate IndexValid(idx: Index) {
    idx.Valid() && forall tag :: tag in idx.vals ==> idx.vals[tag].Valid()
  }

  /** `entities.setdefault(label, {})[normalize_with_morph(entity)] = entity`. */
  function AddEntity(idx: Index, m: Morph, tag: string, name: string): (idx': Index)
    requires IndexValid(idx)
    ensures IndexValid(idx')
  {
    var inner := if tag in idx.vals then idx.vals[tag] else Empty();
    idx.Put(tag, inner.Put(Normalize(m, name), name))
  }

  /** The inner loop over one tag's names. */
  function AddNames(idx: Index, m: Morph, tag: string, names: seq<string>): (idx': Index)
    requires IndexValid(idx)
    ensures IndexValid(idx')
  {
    if names == [] then idx
    else AddEntity(AddNames(idx, m, tag, names[..|names| - 1]), m, tag, names[|names| - 1])
  }

  /** The outer loop over the catalog's tags, skipping unselected ones. */
  function AddTags(m: Morph, cat: Catalog, selected: set<string>, tags: seq<string>): (idx: Index)
    ensures IndexValid(idx)
  {
    if tags == [] then Empty()
    else
      var idx := AddTags(m, cat, selected, tags[..|tags| - 1]);
      var tag := tags[|tags| - 1];
      if tag in selected && tag in cat.vals then AddNames(idx, m, tag, cat.vals[tag].keys) else idx
  }

  /** The `entities` dictionary built from the catalog. */
  function BuildIndex(m: Morph, cat: Catalog, selected: set<string>): (idx: Index)
    ensures IndexValid(idx)
  {
    AddTags(m, cat, selected, cat.keys)
  }

  /** All (key, display name) entries of the index, in scan order. */
  function Entries(idx: Index): seq<(string, string)> {
    EntriesOf(idx, idx.keys)
  }

  function EntriesOf(idx: Index, tags: seq<string>): seq<(string, string)> {
    if tags == [] then []
    else
      var inner := if tags[0] in idx.vals then idx.vals[tags[0]] else Empty();
      InnerEntries(inner) + EntriesOf(idx, tags[1..])
  }

  function InnerEntries(d: Dict<string, string>): (es: seq<(string, string)>)
    ensures |es| == |d.keys|
    ensures forall i :: 0 <= i < |es| ==> es[i] == (d.keys[i], d.Get(d.keys[i], []))
  {
    seq(|d.keys|, i requires 0 <= i < |d.keys| => (d.keys[i], d.Get(d.keys[i], [])))
  }

  // ---------------------------------------------------------------------
  // Sentences and windows

  /** `text.split(".")`. */
  function Sentences(text: string): seq<string> {
    SplitOn(text, ".")
  }

  /** There is one more sentence than there are full stops, none of them
      holds a full stop, and rejoining them with "." gives the text back;
      the empty text is one empty sentence. */
  lemma SentencesMeaning(text: string)
    ensures |Sentences(text)| == CountChar(text, '.') + 1
    ensures forall i :: 0 <= i < |Sentences(text)| ==> '.' !in Sentences(text)[i]
    ensures JoinWith(".", Sentences(text)) == text
    ensures text == [] ==> Sentences(text) == [[]]
  {
    SplitOnCount(text, '.');
    SplitOnJoin(text, ".");
  }

  /** `len(range(n - c + 1))` for windows of `c` sentences. */
  function WindowCount(n: nat, c: nat): nat {
    if c <= n then n - c + 1 else 0
  }

  /** `" ".join(sentences[i:i + c])`. */
  function Window(sents: seq<string>, c: nat, i: nat): string
    requires i + c <= |sents|
  {
    JoinWith(" ", sents[i..i + c])
  }

  /** `characters_in_context`: the display names of the entities whose key
      occurs in the lower-cased window. */
  function Present(m: Morph, idx: Index, window: string): set<string> {
    set e | e in Entries(idx) && Contains(m.lower(window), e.0) :: e.1
  }

  /** `xs` lists the elements of `s`, each once. */
  ghost predicate Enumerates(xs: seq<string>, s: set<string>) {
    Distinct(xs) && forall x :: x in xs <==> x in s
  }

  /** What `list(some_set)` may return: every set listed once each. */
  ghost predicate ValidArrangement(arrange: set<string> -> seq<string>) {
    forall s :: Enumerates(arrange(s), s)
  }

  /** The pair strings built for one head element against the rest. */
  function HeadPairs(x: string, ys: seq<string>): (ks: seq<string>)
    ensures |ks| == |ys|
  {
    if ys == [] then [] else [PairKey(x, ys[0])] + HeadPairs(x, ys[1..])
  }

  /** The pair strings of the double loop over `list(characters_in_context)`,
      in increment order. */
  function PairKeys(xs: seq<string>): seq<string> {
    if |xs| <= 1 then [] else HeadPairs(xs[0], xs[1..]) + PairKeys(xs[1..])
  }

  /** The increments of window `i`: none unless more than one name is present. */
  function WindowKeys(m: Morph, arrange: set<string> -> seq<string>, idx: Index, sents: seq<string>, c: nat, i: nat)
    : seq<string>
    requires i + c <= |sents|
  {
    var p := Present(m, idx, Window(sents, c, i));
    if |p| > 1 then PairKeys(arrange(p)) else []
  }

  /** `win(0) + ... + win(w - 1)`. */
  function Flatten(win: nat -> seq<string>, w: nat): seq<string> {
    if w == 0 then [] else Flatten(win, w - 1) + win(w - 1)
  }

  /** The increments of every window, by window number. */
  function WindowsKeys(m: Morph, arrange: set<string> -> seq<string>, idx: Index, sents: seq<string>, c: nat)
    : nat -> seq<string>
  {
    (i: nat) => if i + c <= |sents| then WindowKeys(m, arrange, idx, sents, c, i) else []
  }

  /** The increments of the first `w` windows, in order. */
  function AllKeys(m: Morph, arrange: set<string> -> seq<string>, idx: Index, sents: seq<string>, c: nat, w: nat)
    : seq<string>
  {
    Flatten(WindowsKeys(m, arrange, idx, sents, c), w)
  }

  /** The `interactions` Counter after the window loop. */
  function Tally(m: Morph, arrange: set<string> -> seq<string>, idx: Index, text: string, c: nat)
    : Dict<string, nat>
  {
    var sents := Sentences(text);
    CountAll(AllKeys(m, arrange, idx, sents, c, WindowCount(|sents|, c)))
  }

  // ---------------------------------------------------------------------
  // Reduction to a graph

  /** The sort key of `top_entities`: `interactions[f"{x} - {x}"]`, zero for
      a pair string never counted. */
  function SelfCount(tally: Dict<string, nat>, k: string): int {
    tally.Get(PairKey(k, k), 0)
  }

  /** `top_entities` of one tag: its keys sorted by `SelfCount`, highest
      first, cut to `TopK`. */
  function TopKeys(tally: Dict<string, nat>, inner: Dict<string, string>): seq<string> {
    Take(SortDesc(inner.keys, SelfCounts(tally)), TopK)
  }

  function SelfCounts(tally: Dict<string, nat>): string -> int {
    k => SelfCount(tally, k)
  }

  /** `any(entity in k for entity in top)`. */
  predicate MentionsAny(k: string, top: seq<string>) {
    exists j | 0 <= j < |top| :: Contains(k, top[j])
  }

  /** `filtered_interactions`: the tallied pair strings that contain a top
      key, in tally order. */
  function Survivors(keys: seq<string>, top: seq<string>): (ks: seq<string>)
    ensures forall k :: k in ks ==> k in keys
  {
    if keys == [] then []
    else (if MentionsAny(keys[0], top) then [keys[0]] else []) + Survivors(keys[1..], top)
  }

  /** Every pair string handed to `add_edge`, tag after tag. */
  function EdgeOps(idx: Index, tally: Dict<string, nat>, tags: seq<string>): (ops: seq<string>)
    ensures forall k :: k in ops ==> k in tally.keys
  {
    if tags == [] then []
    else
      var inner := if tags[0] in idx.vals then idx.vals[tags[0]] else Empty();
      Survivors(tally.keys, TopKeys(tally, inner)) + EdgeOps(idx, tally, tags[1..])
  }

  /** An undirected `networkx.Graph` with a `weight` per edge; an edge is the
      set of its endpoints (a single name for a self-loop). */
  datatype Graph = Graph(nodes: set<string>, weights: map<set<string>, nat>)

  const EmptyGraph: Graph := Graph({}, map[])

  /** `G.add_edge(u, v, weight=w)`: adds both endpoints and (re)sets the
      edge's weight. */
  function AddEdge(g: Graph, u: string, v: string, w: nat): Graph {
    Graph(g.nodes + {u, v}, g.weights[{u, v} := w])
  }

  /** `char1, char2 = k.split(" - ")`: the two pieces, or `None` where the
      unpacking raises `ValueError`. */
  function Endpoints(k: string): Option<(string, string)> {
    var parts := SplitOn(k, Joiner);
    if |parts| == 2 then Some((parts[0], parts[1])) else None
  }

  function EdgeOf(k: string): set<string>
    requires Endpoints(k).Some?
  {
    {Endpoints(k).value.0, Endpoints(k).value.1}
  }

  /** The graph, or the pair string whose unpacking raised `ValueError`. */
  datatype Outcome = Built(graph: Graph) | UnpackError(key: string)

  /** The `add_edge` loop over `ops`, weights read from the tally. */
  function AddEdges(g: Graph, tally: Dict<string, nat>, ops: seq<string>): Outcome
    decreases |ops|
  {
    if ops == [] then Built(g)
    else
      match Endpoints(ops[0])
      case None => UnpackError(ops[0])
      case Some(uv) => AddEdges(AddEdge(g, uv.0, uv.1, tally.Get(ops[0], 0)), tally, ops[1..])
  }

  /** The graph-building half of `create_character_interaction_graph`. */
  function Reduce(idx: Index, tally: Dict<string, nat>): Outcome {
    AddEdges(EmptyGraph, tally, EdgeOps(idx, tally, idx.keys))
  }

  /** `create_character_interaction_graph(text, selected, c)`: the catalog
      is extracted from the spans with the default minimum length. */
  function CreateGraph(m: Morph, arrange: set<string> -> seq<string>, text: string, spans: seq<Span>,
                       selected: set<string>, c: nat): Outcome
  {
    var idx := BuildIndex(m, Extract(m, spans, selected, DefaultMinLength), selected);
    Reduce(idx, Tally(m, arrange, idx, text, c))
  }

  // ---------------------------------------------------------------------
  // The add_edge loop

  /** Some pair string of `ops` unpacks to the edge `e`. */
  ghost predicate HasEdge(ops: seq<string>, e: set<string>) {
    exists j | 0 <= j < |ops| :: Endpoints(ops[j]).Some? && EdgeOf(ops[j]) == e
  }

  /** Some pair string of `ops` unpacks to an edge with endpoint `n`. */
  ghost predicate HasEndpoint(ops: seq<string>, n: string) {
    exists j | 0 <= j < |ops| :: Endpoints(ops[j]).Some? && n in EdgeOf(ops[j])
  }

  /** The loop finishes exactly when every pair string unpacks into two
      names, and otherwise stops at the first one that does not. */
  lemma {:induction false} AddEdgesOutcome(g: Graph, tally: Dict<string, nat>, ops: seq<string>)
    ensures AddEdges(g, tally, ops).Built? <==> forall j | 0 <= j < |ops| :: Endpoints(ops[j]).Some?
    ensures AddEdges(g, tally, ops).UnpackError? ==>
              exists j | 0 <= j < |ops| :: ops[j] == AddEdges(g, tally, ops).key && Endpoints(ops[j]).None?
                && forall i | 0 <= i < j :: Endpoints(ops[i]).Some?
    decreases |ops|
  {
    if ops != [] && Endpoints(ops[0]).Some? {
      var uv := Endpoints(ops[0]).value;
      var g' := AddEdge(g, uv.0, uv.1, tally.Get(ops[0], 0));
      AddEdgesOutcome(g', tally, ops[1..]);
      if AddEdges(g, tally, ops).UnpackError? {
        var j :| 0 <= j < |ops[1..]| && ops[1..][j] == AddEdges(g', tally, ops[1..]).key && Endpoints(ops[1..][j]).None?
                 && forall i | 0 <= i < j :: Endpoints(ops[1..][i]).Some?;
        assert ops[j + 1] == ops[1..][j];
        forall i | 0 <= i < j + 1 ensures Endpoints(ops[i]).Some? {
          if i > 0 {
            assert ops[i] == ops[1..][i - 1];
          }
        }
      }
      if forall j | 0 <= j < |ops[1..]| :: Endpoints(ops[1..][j]).Some? {
        forall j | 0 <= j < |ops| ensures Endpoints(ops[j]).Some? {
          if j > 0 {
            assert ops[j] == ops[1..][j - 1];
          }
        }
      }
    }
  }

  /** The edges after the loop: those before it and those of `ops`. */
  lemma {:induction false} AddEdgesEdge(g: Graph, tally: Dict<string, nat>, ops: seq<string>, e: set<string>)
    requires AddEdges(g, tally, ops).Built?
    ensures e in AddEdges(g, tally, ops).graph.weights <==> e in g.weights || HasEdge(ops, e)
    decreases |ops|
  {
    if ops != [] {
      var uv := Endpoints(ops[0]).value;
      var g' := AddEdge(g, uv.0, uv.1, tally.Get(ops[0], 0));
      AddEdgesEdge(g', tally, ops[1..], e);
      if HasEdge(ops[1..], e) {
        var j :| 0 <= j < |ops[1..]| && Endpoints(ops[1..][j]).Some? && EdgeOf(ops[1..][j]) == e;
        assert ops[j + 1] == ops[1..][j];
      }
      if HasEdge(ops, e) && EdgeOf(ops[0]) != e {
        var j :| 0 <= j < |ops| && Endpoints(ops[j]).Some? && EdgeOf(ops[j]) == e;
        assert ops[1..][j - 1] == ops[j];
      }
    }
  }

  /** The nodes after the loop: those before it and the endpoints of `ops`. */
  lemma {:induction false} AddEdgesNode(g: Graph, tally: Dict<string, nat>, ops: seq<string>, n: string)
    requires AddEdges(g, tally, ops).Built?
    ensures n in AddEdges(g, tally, ops).graph.nodes <==> n in g.nodes || HasEndpoint(ops, n)
    decreases |ops|
  {
    if ops != [] {
      var uv := Endpoints(ops[0]).value;
      var g' := AddEdge(g, uv.0, uv.1, tally.Get(ops[0], 0));
      AddEdgesNode(g', tally, ops[1..], n);
      if HasEndpoint(ops[1..], n) {
        var j :| 0 <= j < |ops[1..]| && Endpoints(ops[1..][j]).Some? && n in EdgeOf(ops[1..][j]);
        assert ops[j + 1] == ops[1..][j];
      }
      if HasEndpoint(ops, n) && n !in EdgeOf(ops[0]) {
        var j :| 0 <= j < |ops| && Endpoints(ops[j]).Some? && n in EdgeOf(ops[j]);
        assert ops[1..][j - 1] == ops[j];
      }
    }
  }

  /** An edge keeps the weight of the last pair string unpacking to it
      (`add_edge` on an existing edge overwrites its weight). */
  lemma {:induction false} AddEdgesLastWrite(g: Graph, tally: Dict<string, nat>, ops: seq<string>, j: nat)
    requires AddEdges(g, tally, ops).Built?
    requires j < |ops| && Endpoints(ops[j]).Some?
    requires forall i | j < i < |ops| :: Endpoints(ops[i]).Some? ==> EdgeOf(ops[i]) != EdgeOf(ops[j])
    ensures var h := AddEdges(g, tally, ops).graph;
            EdgeOf(ops[j]) in h.weights && h.weights[EdgeOf(ops[j])] == tally.Get(ops[j], 0)
    decreases |ops|
  {
    var uv := Endpoints(ops[0]).value;
    var g' := AddEdge(g, uv.0, uv.1, tally.Get(ops[0], 0));
    if j == 0 {
      AddEdgesUntouched(g', tally, ops[1..], EdgeOf(ops[0]));
    } else {
      forall i | j - 1 < i < |ops[1..]| ensures Endpoints(ops[1..][i]).Some? ==> EdgeOf(ops[1..][i]) != EdgeOf(ops[1..][j - 1]) {
        assert ops[1..][i] == ops[i + 1];
      }
      AddEdgesLastWrite(g', tally, ops[1..], j - 1);
    }
  }

  /** An edge no pair string of `ops` unpacks to keeps its weight. */
  lemma {:induction false} AddEdgesUntouched(g: Graph, tally: Dict<string, nat>, ops: seq<string>, e: set<string>)
    requires AddEdges(g, tally, ops).Built?
    requires e in g.weights && !HasEdge(ops, e)
    ensures var h := AddEdges(g, tally, ops).graph;
            e in h.weights && h.weights[e] == g.weights[e]
    decreases |ops|
  {
    if ops != [] {
      var uv := Endpoints(ops[0]).value;
      var g' := AddEdge(g, uv.0, uv.1, tally.Get(ops[0], 0));
      assert EdgeOf(ops[0]) != e;
      forall j | 0 <= j < |ops[1..]| && Endpoints(ops[1..][j]).Some? ensures EdgeOf(ops[1..][j]) != e {
        assert ops[1..][j] == ops[j + 1];
      }
      AddEdgesUntouched(g', tally, ops[1..], e);
    }
  }

  // ---------------------------------------------------------------------
  // Pair strings of names without " -"

  /** `s` has no space followed by a hyphen, so `" - "` cannot occur in it
      or straddle its end. Under this condition a pair string splits back
      into its two names. */
  predicate SeparatorFree(s: string) {
    forall i :: 0 <= i < |s| - 1 ==> !(s[i] == ' ' && s[i + 1] == '-')
  }

  lemma PairKeySplit(a: string, b: string)
    requires SeparatorFree(a) && SeparatorFree(b)
    ensures SplitOn(PairKey(a, b), Joiner) == [a, b]
    ensures Endpoints(PairKey(a, b)) == Some((a, b))
  {
    var s := a + Joiner + b;
    forall i | 0 <= i < |a| ensures !OccursAt(s, Joiner, i) {
      if i < |a| - 1 {
        assert s[i] == a[i] && s[i + 1] == a[i + 1];
        assert s[i..i + 3][0] == s[i] && s[i..i + 3][1] == s[i + 1];
      } else {
        assert s[i + 1] == ' ';
        assert s[i..i + 3][1] == s[i + 1];
      }
    }
    forall i | 0 <= i && i + 3 <= |b| ensures !OccursAt(b, Joiner, i) {
      assert b[i..i + 3][0] == b[i] && b[i..i + 3][1] == b[i + 1];
    }
    SplitOnPair(a, b, Joiner);
  }

  lemma PairKeyInjective(a: string, b: string, c: string, d: string)
    requires SeparatorFree(a) && SeparatorFree(b) && SeparatorFree(c) && SeparatorFree(d)
    ensures PairKey(a, b) == PairKey(c, d) <==> a == c && b == d
  {
    PairKeySplit(a, b);
    PairKeySplit(c, d);
  }

  /** Every key and display name of the index is separator-free. */
  ghost predicate IndexSeparatorFree(idx: Index) {
    forall e :: e in Entries(idx) ==> SeparatorFree(e.0) && SeparatorFree(e.1)
  }

  ghost predicate AllSeparatorFree(xs: seq<string>) {
    forall i :: 0 <= i < |xs| ==> SeparatorFree(xs[i])
  }

  /** Occurrences of `"a - b"` among one head's pair strings. */
  lemma {:induction false} HeadPairsCount(x: string, ys: seq<string>, a: string, b: string)
    requires SeparatorFree(x) && AllSeparatorFree(ys) && SeparatorFree(a) && SeparatorFree(b)
    requires Distinct(ys)
    ensures multiset(HeadPairs(x, ys))[PairKey(a, b)] == if x == a && b in ys then 1 else 0
    decreases |ys|
  {
    if ys != [] {
      HeadPairsCount(x, ys[1..], a, b);
      PairKeyInjective(x, ys[0], a, b);
      assert ys == [ys[0]] + ys[1..];
      if x == a && ys[0] == b {
        assert b !in ys[1..] by {
          forall i | 0 <= i < |ys[1..]| ensures ys[1..][i] != b {
            assert ys[1..][i] == ys[i + 1];
          }
        }
      }
    }
  }

  /** Among the pair strings of distinct names, `a` and `b` meet once, in one
      orientation or the other, when both are listed, and not at all
      otherwise. */
  lemma {:induction false} PairKeysCount(xs: seq<string>, a: string, b: string)
    requires Distinct(xs) && AllSeparatorFree(xs) && SeparatorFree(a) && SeparatorFree(b) && a != b
    ensures multiset(PairKeys(xs))[PairKey(a, b)] + multiset(PairKeys(xs))[PairKey(b, a)]
         == if a in xs && b in xs then 1 else 0
    decreases |xs|
  {
    if |xs| <= 1 {
    } else {
      var x, ys := xs[0], xs[1..];
      assert xs == [x] + ys;
      assert Distinct(ys) by {
        forall i, j | 0 <= i < j < |ys| ensures ys[i] != ys[j] {
          assert ys[i] == xs[i + 1] && ys[j] == xs[j + 1];
        }
      }
      assert x !in ys by {
        forall i | 0 <= i < |ys| ensures ys[i] != x {
          assert ys[i] == xs[i + 1];
        }
      }
      HeadPairsCount(x, ys, a, b);
      HeadPairsCount(x, ys, b, a);
      PairKeysCount(ys, a, b);
    }
  }

  /** No name is ever paired with itself. */
  lemma {:induction false} PairKeysNoSelf(xs: seq<string>, x: string)
    requires Distinct(xs) && AllSeparatorFree(xs) && SeparatorFree(x)
    ensures multiset(PairKeys(xs))[PairKey(x, x)] == 0
    decreases |xs|
  {
    if |xs| > 1 {
      var ys := xs[1..];
      assert Distinct(ys) by {
        forall i, j | 0 <= i < j < |ys| ensures ys[i] != ys[j] {
          assert ys[i] == xs[i + 1] && ys[j] == xs[j + 1];
        }
      }
      assert xs[0] !in ys by {
        forall i | 0 <= i < |ys| ensures ys[i] != xs[0] {
          assert ys[i] == xs[i + 1];
        }
      }
      HeadPairsCount(xs[0], ys, x, x);
      PairKeysNoSelf(ys, x);
    }
  }

  /** A list of `k` names yields `k * (k - 1) / 2` pair strings. */
  lemma {:induction false} PairKeysLength(xs: seq<string>)
    ensures 2 * |PairKeys(xs)| == |xs| * (|xs| - 1)
    decreases |xs|
  {
    if |xs| > 1 {
      var n := |xs|;
      PairKeysLength(xs[1..]);
      assert 2 * |PairKeys(xs)| == 2 * (n - 1) + (n - 1) * (n - 2);
      assert (n - 1) * (n - 2) == (n - 1) * n - 2 * (n - 1);
    }
  }

  /** Every pair string joins an earlier-listed name to a later-listed one. */
  lemma {:induction false} PairKeysShape(xs: seq<string>, k: string)
    requires k in PairKeys(xs)
    ensures exists i, j :: 0 <= i < j < |xs| && k == PairKey(xs[i], xs[j])
    decreases |xs|
  {
    var ys := xs[1..];
    if k in HeadPairs(xs[0], ys) {
      HeadPairsShape(xs[0], ys, k);
      var j :| 0 <= j < |ys| && k == PairKey(xs[0], ys[j]);
      assert ys[j] == xs[j + 1];
    } else {
      PairKeysShape(ys, k);
      var i, j :| 0 <= i < j < |ys| && k == PairKey(ys[i], ys[j]);
      assert ys[i] == xs[i + 1] && ys[j] == xs[j + 1];
    }
  }

  lemma {:induction false} HeadPairsShape(x: string, ys: seq<string>, k: string)
    requires k in HeadPairs(x, ys)
    ensures exists j :: 0 <= j < |ys| && k == PairKey(x, ys[j])
    decreases |ys|
  {
    if k != PairKey(x, ys[0]) {
      HeadPairsShape(x, ys[1..], k);
      var j :| 0 <= j < |ys[1..]| && k == PairKey(x, ys[1..][j]);
      assert ys[1..][j] == ys[j + 1];
    }
  }

  // ---------------------------------------------------------------------
  // What the entity index holds

  /** One tag's table built from scratch: each name's `key` mapped to the
      last name having it. */
  function NameTable(key: string -> string, names: seq<string>): (d: Dict<string, string>)
    ensures d.Valid()
  {
    if names == [] then Empty()
    else
      var x := names[|names| - 1];
      NameTable(key, names[..|names| - 1]).Put(key(x), x)
  }

  /** Every name's key is a key of the table. */
  lemma {:induction false} NameTableHas(key: string -> string, names: seq<string>, i: nat)
    requires i < |names|
    ensures key(names[i]) in NameTable(key, names).vals
    decreases |names|
  {
    var n := |names| - 1;
    var p := names[..n];
    assert NameTable(key, names).vals == NameTable(key, p).vals[key(names[n]) := names[n]];
    if i < n {
      assert p[i] == names[i];
      NameTableHas(key, p, i);
    }
  }

  /** Exactly the keys of the names are keys of the table. */
  lemma NameTableKey(key: string -> string, names: seq<string>, k: string)
    ensures k in NameTable(key, names).vals <==> exists i :: 0 <= i < |names| && key(names[i]) == k
  {
    var d := NameTable(key, names);
    if k in d.vals {
      NameTableValue(key, names, k);
      var i :| 0 <= i < |names| && names[i] == d.vals[k];
    }
    forall i | 0 <= i < |names| && key(names[i]) == k ensures k in d.vals {
      NameTableHas(key, names, i);
    }
  }

  /** Each key displays one of the names, and is that name's key. */
  lemma {:induction false} NameTableValue(key: string -> string, names: seq<string>, k: string)
    requires k in NameTable(key, names).vals
    ensures NameTable(key, names).vals[k] in names
    ensures key(NameTable(key, names).vals[k]) == k
    decreases |names|
  {
    var n := |names| - 1;
    var p := names[..n];
    var x := names[n];
    assert NameTable(key, names).vals == NameTable(key, p).vals[key(x) := x];
    if k != key(x) {
      NameTableValue(key, p, k);
      var i :| 0 <= i < |p| && p[i] == NameTable(key, p).vals[k];
      assert names[i] == p[i];
    }
  }

  /** A name whose key no later name shares is the one displayed. */
  lemma {:induction false} NameTableLast(key: string -> string, names: seq<string>, i: nat)
    requires i < |names|
    requires forall j | i < j < |names| :: key(names[j]) != key(names[i])
    ensures key(names[i]) in NameTable(key, names).vals
    ensures NameTable(key, names).vals[key(names[i])] == names[i]
    decreases |names|
  {
    if i < |names| - 1 {
      var p := names[..|names| - 1];
      assert p[i] == names[i];
      forall j | i < j < |p| ensures key(p[j]) != key(p[i]) {
        assert p[j] == names[j];
      }
      NameTableLast(key, p, i);
    }
  }

  /** `normalize_with_morph` as a function value. */
  function NormalOf(m: Morph): string -> string {
    s => Normalize(m, s)
  }

  lemma PutTwice<K(!new), V>(d: Dict<K, V>, k: K, v: V, w: V)
    requires d.Valid()
    ensures d.Put(k, v).Put(k, w) == d.Put(k, w)
  {
    assert d.vals[k := v][k := w] == d.vals[k := w];
  }

  /** Adding one tag's names to an index that lacks the tag installs that
      tag's table. */
  lemma {:induction false} AddNamesTable(idx: Index, m: Morph, tag: string, names: seq<string>)
    requires IndexValid(idx) && tag !in idx.vals && names != []
    ensures AddNames(idx, m, tag, names) == idx.Put(tag, NameTable(NormalOf(m), names))
    decreases |names|
  {
    var p := names[..|names| - 1];
    var x := names[|names| - 1];
    if p == [] {
      assert NameTable(NormalOf(m), p) == Empty();
    } else {
      AddNamesTable(idx, m, tag, p);
      PutTwice(idx, tag, NameTable(NormalOf(m), p), NameTable(NormalOf(m), p).Put(Normalize(m, x), x));
    }
  }

  lemma {:induction false} AddTagsMeaning(m: Morph, cat: Catalog, selected: set<string>, tags: seq<string>, t: string)
    requires Distinct(tags)
    ensures var idx := AddTags(m, cat, selected, tags);
            && (t in idx.vals <==> t in tags && t in selected && t in cat.vals && cat.vals[t].keys != [])
            && (t in idx.vals ==> idx.vals[t] == NameTable(NormalOf(m), cat.vals[t].keys))
    decreases |tags|
  {
    if tags != [] {
      var p := tags[..|tags| - 1];
      var x := tags[|tags| - 1];
      assert tags == p + [x];
      assert Distinct(p) by {
        forall i, j | 0 <= i < j < |p| ensures p[i] != p[j] {
          assert p[i] == tags[i] && p[j] == tags[j];
        }
      }
      assert x !in p by {
        forall i | 0 <= i < |p| ensures p[i] != x {
          assert p[i] == tags[i];
        }
      }
      AddTagsMeaning(m, cat, selected, p, t);
      AddTagsMeaning(m, cat, selected, p, x);
      var idx := AddTags(m, cat, selected, p);
      if x in selected && x in cat.vals && cat.vals[x].keys != [] {
        AddNamesTable(idx, m, x, cat.vals[x].keys);
      }
    }
  }

  /** `entities` holds a table for exactly the selected tags with at least
      one catalog key, and that table is the tag's `NameTable`. */
  lemma BuildIndexMeaning(m: Morph, cat: Catalog, selected: set<string>, tag: string)
    requires CatalogValid(cat)
    ensures var idx := BuildIndex(m, cat, selected);
            && (tag in idx.vals <==> tag in selected && tag in cat.vals && cat.vals[tag].keys != [])
            && (tag in idx.vals ==> idx.vals[tag] == NameTable(NormalOf(m), cat.vals[tag].keys))
  {
    AddTagsMeaning(m, cat, selected, cat.keys, tag);
  }

  lemma {:induction false} EntriesOfMember(idx: Index, tags: seq<string>, tag: string, k: string)
    requires IndexValid(idx) && tag in tags && tag in idx.vals && k in idx.vals[tag].vals
    ensures (k, idx.vals[tag].vals[k]) in EntriesOf(idx, tags)
    decreases |tags|
  {
    if tags[0] == tag {
      var d := idx.vals[tag];
      var i :| 0 <= i < |d.keys| && d.keys[i] == k;
      assert InnerEntries(d)[i] == (k, d.vals[k]);
    } else {
      EntriesOfMember(idx, tags[1..], tag, k);
    }
  }

  lemma {:induction false} EntriesOfSource(idx: Index, tags: seq<string>, e: (string, string)) returns (tag: string)
    requires IndexValid(idx) && e in EntriesOf(idx, tags)
    ensures tag in tags && tag in idx.vals && e.0 in idx.vals[tag].vals && idx.vals[tag].vals[e.0] == e.1
    decreases |tags|
  {
    var inner := if tags[0] in idx.vals then idx.vals[tags[0]] else Empty();
    if e in InnerEntries(inner) {
      var i :| 0 <= i < |inner.keys| && InnerEntries(inner)[i] == e;
      tag := tags[0];
    } else {
      tag := EntriesOfSource(idx, tags[1..], e);
    }
  }

  /** A display name is present in a window exactly when some key of the
      index mapping to it occurs in the lower-cased window. */
  lemma PresentMeaning(m: Morph, idx: Index, window: string, x: string)
    requires IndexValid(idx)
    ensures x in Present(m, idx, window) <==>
            exists tag, k :: tag in idx.vals && k in idx.vals[tag].vals && idx.vals[tag].vals[k] == x
                          && Contains(m.lower(window), k)
  {
    if x in Present(m, idx, window) {
      var e :| e in Entries(idx) && Contains(m.lower(window), e.0) && e.1 == x;
      var tag := EntriesOfSource(idx, idx.keys, e);
    }
    if exists tag, k :: tag in idx.vals && k in idx.vals[tag].vals && idx.vals[tag].vals[k] == x
                     && Contains(m.lower(window), k) {
      var tag, k :| tag in idx.vals && k in idx.vals[tag].vals && idx.vals[tag].vals[k] == x
                 && Contains(m.lower(window), k);
      EntriesOfMember(idx, idx.keys, tag, k);
    }
  }

  // ---------------------------------------------------------------------
  // What the tally counts

  /** `f(0) + ... + f(w - 1)`. */
  function Total(f: nat -> nat, w: nat): nat {
    if w == 0 then 0 else Total(f, w - 1) + f(w - 1)
  }

  /** One if both `a` and `b` are present in window `i`, zero otherwise. */
  function Both(m: Morph, idx: Index, sents: seq<string>, c: nat, a: string, b: string, i: nat): nat
    requires i + c <= |sents|
  {
    var p := Present(m, idx, Window(sents, c, i));
    if a in p && b in p then 1 else 0
  }

  function BothAt(m: Morph, idx: Index, sents: seq<string>, c: nat, a: string, b: string): nat -> nat {
    (i: nat) => if i + c <= |sents| then Both(m, idx, sents, c, a, b, i) else 0
  }

  /** The number of the first `w` windows in which both `a` and `b` are
      present. */
  function Meetings(m: Morph, idx: Index, sents: seq<string>, c: nat, a: string, b: string, w: nat): nat {
    Total(BothAt(m, idx, sents, c, a, b), w)
  }

  /** Occurrences of the pair of `a` and `b`, in either orientation. */
  function PairCount(ks: seq<string>, a: string, b: string): nat {
    multiset(ks)[PairKey(a, b)] + multiset(ks)[PairKey(b, a)]
  }

  lemma PairCountAppend(xs: seq<string>, ys: seq<string>, a: string, b: string)
    ensures PairCount(xs + ys, a, b) == PairCount(xs, a, b) + PairCount(ys, a, b)
  {
    assert multiset(xs + ys) == multiset(xs) + multiset(ys);
  }

  lemma PresentSeparatorFree(m: Morph, idx: Index, window: string)
    requires IndexSeparatorFree(idx)
    ensures forall x :: x in Present(m, idx, window) ==> SeparatorFree(x)
  {
  }

  lemma CardTwo(p: set<string>, a: string, b: string)
    ensures a in p && b in p && a != b ==> |p| >= 2
  {
    if a in p && b in p && a != b {
      var q := p - {a};
      assert b in q;
      assert |q| == |p| - 1;
    }
  }

  /** A listing of a set without repeats has the set's size. */
  lemma {:induction false} EnumeratesSize(xs: seq<string>, s: set<string>)
    requires Enumerates(xs, s)
    ensures |xs| == |s|
    decreases |xs|
  {
    if xs != [] {
      var x := xs[|xs| - 1];
      var p := xs[..|xs| - 1];
      assert xs == p + [x];
      assert Distinct(p) by {
        forall i, j | 0 <= i < j < |p| ensures p[i] != p[j] {
          assert p[i] == xs[i] && p[j] == xs[j];
        }
      }
      forall y ensures y in p <==> y in s - {x} {
        if y in p {
          var i :| 0 <= i < |p| && p[i] == y;
          assert xs[i] == y && xs[|xs| - 1] == x;
        }
      }
      EnumeratesSize(p, s - {x});
    } else {
      assert forall y :: y !in s;
    }
  }

  /** Window `i` adds one count, in one orientation or the other, to a pair
      of distinct names present in it, and none otherwise. */
  lemma WindowPairs(m: Morph, arrange: set<string> -> seq<string>, idx: Index, sents: seq<string>, c: nat,
                    i: nat, a: string, b: string)
    requires i + c <= |sents|
    requires ValidArrangement(arrange) && IndexSeparatorFree(idx)
    requires SeparatorFree(a) && SeparatorFree(b) && a != b
    ensures PairCount(WindowKeys(m, arrange, idx, sents, c, i), a, b) == Both(m, idx, sents, c, a, b, i)
  {
    var p := Present(m, idx, Window(sents, c, i));
    CardTwo(p, a, b);
    if |p| > 1 {
      var xs := arrange(p);
      assert Enumerates(xs, p);
      PresentSeparatorFree(m, idx, Window(sents, c, i));
      PairKeysCount(xs, a, b);
    }
  }

  /** Window `i` never counts a name with itself. */
  lemma WindowNoSelf(m: Morph, arrange: set<string> -> seq<string>, idx: Index, sents: seq<string>, c: nat,
                     i: nat, x: string)
    requires i + c <= |sents|
    requires ValidArrangement(arrange) && IndexSeparatorFree(idx) && SeparatorFree(x)
    ensures multiset(WindowKeys(m, arrange, idx, sents, c, i))[PairKey(x, x)] == 0
  {
    var p := Present(m, idx, Window(sents, c, i));
    if |p| > 1 {
      assert Enumerates(arrange(p), p);
      PresentSeparatorFree(m, idx, Window(sents, c, i));
      PairKeysNoSelf(arrange(p), x);
    }
  }

  /** Window `i` counts `k * (k - 1) / 2` pairs for `k` names present. */
  lemma WindowSize(m: Morph, arrange: set<string> -> seq<string>, idx: Index, sents: seq<string>, c: nat, i: nat)
    requires i + c <= |sents|
    requires ValidArrangement(arrange)
    ensures var k := |Present(m, idx, Window(sents, c, i))|;
            2 * |WindowKeys(m, arrange, idx, sents, c, i)| == k * (k - 1)
  {
    var p := Present(m, idx, Window(sents, c, i));
    if |p| > 1 {
      assert Enumerates(arrange(p), p);
      EnumeratesSize(arrange(p), p);
      PairKeysLength(arrange(p));
    } else {
      assert |p| * (|p| - 1) == 0;
    }
  }

  /** Pair counts add up over a concatenation of windows. */
  lemma {:induction false} FlattenPairs(win: nat -> seq<string>, both: nat -> nat, w: nat, a: string, b: string)
    requires forall i | 0 <= i < w :: PairCount(win(i), a, b) == both(i)
    ensures PairCount(Flatten(win, w), a, b) == Total(both, w)
  {
    if w > 0 {
      FlattenPairs(win, both, w - 1, a, b);
      PairCountAppend(Flatten(win, w - 1), win(w - 1), a, b);
    }
  }

  /** A string no window holds is not in their concatenation. */
  lemma {:induction false} FlattenAbsent(win: nat -> seq<string>, w: nat, k: string)
    requires forall i | 0 <= i < w :: multiset(win(i))[k] == 0
    ensures multiset(Flatten(win, w))[k] == 0
  {
    if w > 0 {
      FlattenAbsent(win, w - 1, k);
      assert multiset(Flatten(win, w - 1) + win(w - 1)) == multiset(Flatten(win, w - 1)) + multiset(win(w - 1));
    }
  }

  /** Every string of the concatenation comes from some window. */
  lemma {:induction false} FlattenMember(win: nat -> seq<string>, w: nat, k: string) returns (i: nat)
    requires k in Flatten(win, w)
    ensures i < w && k in win(i)
  {
    if k in Flatten(win, w - 1) {
      i := FlattenMember(win, w - 1, k);
    } else {
      i := w - 1;
    }
  }

  /** A positive term makes the total positive. */
  lemma {:induction false} TotalPositive(f: nat -> nat, w: nat, i: nat)
    requires i < w && f(i) >= 1
    ensures Total(f, w) >= 1
  {
    if i < w - 1 {
      TotalPositive(f, w - 1, i);
    }
  }

  /** Every pair string window `i` counts joins two distinct names present
      together in it. */
  lemma WindowShape(m: Morph, arrange: set<string> -> seq<string>, idx: Index, sents: seq<string>, c: nat,
                    i: nat, k: string) returns (a: string, b: string)
    requires i + c <= |sents|
    requires ValidArrangement(arrange) && IndexSeparatorFree(idx)
    requires k in WindowKeys(m, arrange, idx, sents, c, i)
    ensures k == PairKey(a, b) && a != b && SeparatorFree(a) && SeparatorFree(b)
    ensures Both(m, idx, sents, c, a, b, i) == 1
  {
    var p := Present(m, idx, Window(sents, c, i));
    var xs := arrange(p);
    assert Enumerates(xs, p);
    PairKeysShape(xs, k);
    var x, y :| 0 <= x < y < |xs| && k == PairKey(xs[x], xs[y]);
    PresentSeparatorFree(m, idx, Window(sents, c, i));
    a, b := xs[x], xs[y];
    assert a in p && b in p;
  }

  /** The tally of `text` with windows of `c` sentences. */
  lemma TallyPairs(m: Morph, arrange: set<string> -> seq<string>, idx: Index, text: string, c: nat,
                   a: string, b: string)
    requires ValidArrangement(arrange) && IndexSeparatorFree(idx)
    requires SeparatorFree(a) && SeparatorFree(b) && a != b
    ensures var t := Tally(m, arrange, idx, text, c);
            var sents := Sentences(text);
            t.Get(PairKey(a, b), 0) + t.Get(PairKey(b, a), 0)
              == Meetings(m, idx, sents, c, a, b, WindowCount(|sents|, c))
  {
    var sents := Sentences(text);
    var w := WindowCount(|sents|, c);
    var win := WindowsKeys(m, arrange, idx, sents, c);
    var both := BothAt(m, idx, sents, c, a, b);
    forall i | 0 <= i < w ensures PairCount(win(i), a, b) == both(i) {
      WindowPairs(m, arrange, idx, sents, c, i, a, b);
    }
    FlattenPairs(win, both, w, a, b);
  }

  lemma TallyNoSelf(m: Morph, arrange: set<string> -> seq<string>, idx: Index, text: string, c: nat, x: string)
    requires ValidArrangement(arrange) && IndexSeparatorFree(idx) && SeparatorFree(x)
    ensures Tally(m, arrange, idx, text, c).Get(PairKey(x, x), 0) == 0
  {
    var sents := Sentences(text);
    var w := WindowCount(|sents|, c);
    var win := WindowsKeys(m, arrange, idx, sents, c);
    forall i | 0 <= i < w ensures multiset(win(i))[PairKey(x, x)] == 0 {
      WindowNoSelf(m, arrange, idx, sents, c, i, x);
    }
    FlattenAbsent(win, w, PairKey(x, x));
  }

  /** Every pair string of the tally is `"a - b"` for two distinct names
      present together in some window, and its count is positive. */
  lemma TallyKeyShape(m: Morph, arrange: set<string> -> seq<string>, idx: Index, text: string, c: nat, k: string)
    requires ValidArrangement(arrange) && IndexSeparatorFree(idx)
    requires k in Tally(m, arrange, idx, text, c).vals
    ensures Tally(m, arrange, idx, text, c).vals[k] >= 1
    ensures var sents := Sentences(text);
            exists a, b :: k == PairKey(a, b) && a != b && SeparatorFree(a) && SeparatorFree(b)
                        && Meetings(m, idx, sents, c, a, b, WindowCount(|sents|, c)) >= 1
  {
    var sents := Sentences(text);
    var w := WindowCount(|sents|, c);
    var win := WindowsKeys(m, arrange, idx, sents, c);
    CountAllPositive(Flatten(win, w));
    var i := FlattenMember(win, w, k);
    var a, b := WindowShape(m, arrange, idx, sents, c, i, k);
    TotalPositive(BothAt(m, idx, sents, c, a, b), w, i);
  }

  /** With windows wider than the text has sentences nothing is counted. */
  lemma TallyTooFewSentences(m: Morph, arrange: set<string> -> seq<string>, idx: Index, text: string, c: nat)
    requires c > CountChar(text, '.') + 1
    ensures Tally(m, arrange, idx, text, c).keys == []
  {
    SplitOnCount(text, '.');
  }

  // ---------------------------------------------------------------------
  // What the graph holds

  /** Under separator-free names the self-pair sort key is zero for every
      key, so the stable sort keeps insertion order and `top_entities` is
      simply the tag's first `TopK` keys. */
  lemma TopKeysPrefix(m: Morph, arrange: set<string> -> seq<string>, idx: Index, text: string, c: nat, tag: string)
    requires IndexValid(idx) && ValidArrangement(arrange) && IndexSeparatorFree(idx)
    requires tag in idx.vals
    ensures TopKeys(Tally(m, arrange, idx, text, c), idx.vals[tag]) == Take(idx.vals[tag].keys, TopK)
  {
    var tally := Tally(m, arrange, idx, text, c);
    var keys := idx.vals[tag].keys;
    forall i | 0 <= i < |keys| ensures SelfCounts(tally)(keys[i]) == 0 {
      EntriesOfMember(idx, idx.keys, tag, keys[i]);
      TallyNoSelf(m, arrange, idx, text, c, keys[i]);
    }
    SortDescConstant(keys, SelfCounts(tally), 0);
  }

  lemma {:induction false} SurvivorsMember(keys: seq<string>, top: seq<string>, k: string)
    ensures k in Survivors(keys, top) <==> k in keys && MentionsAny(k, top)
    decreases |keys|
  {
    if keys != [] {
      SurvivorsMember(keys[1..], top, k);
      assert keys == [keys[0]] + keys[1..];
    }
  }

  /** A pair string reaches `add_edge` exactly when it was tallied and
      contains a top key of some tag of the index. */
  lemma {:induction false} EdgeOpsMember(idx: Index, tally: Dict<string, nat>, tags: seq<string>, k: string)
    requires IndexValid(idx)
    ensures k in EdgeOps(idx, tally, tags) <==>
            k in tally.keys && exists tag :: tag in tags && tag in idx.vals && MentionsAny(k, TopKeys(tally, idx.vals[tag]))
    decreases |tags|
  {
    if tags != [] {
      EdgeOpsMember(idx, tally, tags[1..], k);
      var inner := if tags[0] in idx.vals then idx.vals[tags[0]] else Empty();
      SurvivorsMember(tally.keys, TopKeys(tally, inner), k);
      if tags[0] !in idx.vals {
        assert TopKeys(tally, inner) == [];
      }
      assert forall tag :: tag in tags <==> tag == tags[0] || tag in tags[1..];
    }
  }

  /** The last pair string of `ops` unpacking to `e`. */
  lemma {:induction false} LastEdge(ops: seq<string>, e: set<string>) returns (j: nat)
    requires HasEdge(ops, e)
    ensures j < |ops| && Endpoints(ops[j]).Some? && EdgeOf(ops[j]) == e
    ensures forall i | j < i < |ops| :: Endpoints(ops[i]).Some? ==> EdgeOf(ops[i]) != e
    decreases |ops|
  {
    var n := |ops| - 1;
    if Endpoints(ops[n]).Some? && EdgeOf(ops[n]) == e {
      j := n;
    } else {
      var p := ops[..n];
      assert HasEdge(p, e) by {
        var i :| 0 <= i < |ops| && Endpoints(ops[i]).Some? && EdgeOf(ops[i]) == e;
        assert i < n && p[i] == ops[i];
      }
      j := LastEdge(p, e);
      assert ops[j] == p[j];
      forall i | j < i < |ops| && Endpoints(ops[i]).Some? ensures EdgeOf(ops[i]) != e {
        if i < n {
          assert ops[i] == p[i];
        }
      }
    }
  }

  /** The nodes of the built graph are exactly the endpoints of its edges:
      no node is isolated. */
  lemma ReduceNodes(idx: Index, tally: Dict<string, nat>, n: string)
    requires Reduce(idx, tally).Built?
    ensures var g := Reduce(idx, tally).graph;
            n in g.nodes <==> exists e :: e in g.weights && n in e
  {
    var ops := EdgeOps(idx, tally, idx.keys);
    var g := Reduce(idx, tally).graph;
    AddEdgesNode(EmptyGraph, tally, ops, n);
    if n in g.nodes {
      var j :| 0 <= j < |ops| && Endpoints(ops[j]).Some? && n in EdgeOf(ops[j]);
      AddEdgesEdge(EmptyGraph, tally, ops, EdgeOf(ops[j]));
    }
    if exists e :: e in g.weights && n in e {
      var e :| e in g.weights && n in e;
      AddEdgesEdge(EmptyGraph, tally, ops, e);
      var j :| 0 <= j < |ops| && Endpoints(ops[j]).Some? && EdgeOf(ops[j]) == e;
    }
  }

  /** The edges of the built graph are those of the surviving pair strings;
      the graph is empty exactly when no pair string survives. */
  lemma ReduceEdges(idx: Index, tally: Dict<string, nat>, e: set<string>)
    requires Reduce(idx, tally).Built?
    ensures var g := Reduce(idx, tally).graph;
            && (e in g.weights <==> HasEdge(EdgeOps(idx, tally, idx.keys), e))
            && (g.nodes == {} <==> EdgeOps(idx, tally, idx.keys) == [])
  {
    var ops := EdgeOps(idx, tally, idx.keys);
    AddEdgesEdge(EmptyGraph, tally, ops, e);
    if ops != [] {
      AddEdgesNode(EmptyGraph, tally, ops, Endpoints(ops[0]).value.0);
    }
  }

  /** Under separator-free names every tallied pair string unpacks, so the
      graph is built without `ValueError`. */
  lemma ReduceBuilt(m: Morph, arrange: set<string> -> seq<string>, idx: Index, text: string, c: nat)
    requires ValidArrangement(arrange) && IndexSeparatorFree(idx)
    ensures Reduce(idx, Tally(m, arrange, idx, text, c)).Built?
  {
    var tally := Tally(m, arrange, idx, text, c);
    var ops := EdgeOps(idx, tally, idx.keys);
    forall j | 0 <= j < |ops| ensures Endpoints(ops[j]).Some? {
      TallyKeyShape(m, arrange, idx, text, c, ops[j]);
      var a, b :| ops[j] == PairKey(a, b) && SeparatorFree(a) && SeparatorFree(b);
      PairKeySplit(a, b);
    }
    AddEdgesOutcome(EmptyGraph, tally, ops);
  }

  /** Each edge joins two distinct names and weighs what the tally counted
      for one orientation of their pair: at least one, and at most the
      number of windows holding both. */
  lemma ReduceWeight(m: Morph, arrange: set<string> -> seq<string>, idx: Index, text: string, c: nat, e: set<string>)
    requires ValidArrangement(arrange) && IndexSeparatorFree(idx)
    requires Reduce(idx, Tally(m, arrange, idx, text, c)).Built?
    requires e in Reduce(idx, Tally(m, arrange, idx, text, c)).graph.weights
    ensures var tally := Tally(m, arrange, idx, text, c);
            var w := Reduce(idx, tally).graph.weights[e];
            var sents := Sentences(text);
            exists a, b :: e == {a, b} && a != b && w == tally.Get(PairKey(a, b), 0)
                        && 1 <= w <= Meetings(m, idx, sents, c, a, b, WindowCount(|sents|, c))
  {
    var tally := Tally(m, arrange, idx, text, c);
    var ops := EdgeOps(idx, tally, idx.keys);
    AddEdgesEdge(EmptyGraph, tally, ops, e);
    var j := LastEdge(ops, e);
    AddEdgesLastWrite(EmptyGraph, tally, ops, j);
    TallyKeyShape(m, arrange, idx, text, c, ops[j]);
    var a, b :| ops[j] == PairKey(a, b) && a != b && SeparatorFree(a) && SeparatorFree(b);
    PairKeySplit(a, b);
    TallyPairs(m, arrange, idx, text, c, a, b);
  }

  // ---------------------------------------------------------------------
  // The whole builder

  /** Every catalog key, and the normal form of each, is separator-free. */
  ghost predicate CatalogSeparatorFree(m: Morph, cat: Catalog) {
    forall tag, k :: tag in cat.vals && k in cat.vals[tag].vals ==> SeparatorFree(k) && SeparatorFree(Normalize(m, k))
  }

  lemma IndexSeparatorFreeFrom(m: Morph, cat: Catalog, selected: set<string>)
    requires CatalogValid(cat) && CatalogSeparatorFree(m, cat)
    ensures IndexSeparatorFree(BuildIndex(m, cat, selected))
  {
    var idx := BuildIndex(m, cat, selected);
    forall e | e in Entries(idx) ensures SeparatorFree(e.0) && SeparatorFree(e.1) {
      var tag := EntriesOfSource(idx, idx.keys, e);
      BuildIndexMeaning(m, cat, selected, tag);
      NameTableValue(NormalOf(m), cat.vals[tag].keys, e.0);
    }
  }

  /** The graph of a text whose catalog names are separator-free: it is
      built without `ValueError`, its nodes are exactly its edges'
      endpoints, and each edge joins two distinct names with a weight
      between one and the number of windows holding both. */
  lemma CreateGraphShape(m: Morph, arrange: set<string> -> seq<string>, text: string, spans: seq<Span>,
                         selected: set<string>, c: nat, e: set<string>, n: string)
    requires ValidArrangement(arrange)
    requires CatalogSeparatorFree(m, Extract(m, spans, selected, DefaultMinLength))
    ensures CreateGraph(m, arrange, text, spans, selected, c).Built?
    ensures var g := CreateGraph(m, arrange, text, spans, selected, c).graph;
            n in g.nodes <==> exists e' :: e' in g.weights && n in e'
    ensures var idx := BuildIndex(m, Extract(m, spans, selected, DefaultMinLength), selected);
            var g := CreateGraph(m, arrange, text, spans, selected, c).graph;
            var sents := Sentences(text);
            e in g.weights ==>
              exists a, b :: e == {a, b} && a != b
                          && 1 <= g.weights[e] <= Meetings(m, idx, sents, c, a, b, WindowCount(|sents|, c))
  {
    var cat := Extract(m, spans, selected, DefaultMinLength);
    var idx := BuildIndex(m, cat, selected);
    IndexSeparatorFreeFrom(m, cat, selected);
    ReduceBuilt(m, arrange, idx, text, c);
    ReduceNodes(idx, Tally(m, arrange, idx, text, c), n);
    if e in CreateGraph(m, arrange, text, spans, selected, c).graph.weights {
      ReduceWeight(m, arrange, idx, text, c, e);
    }
  }

  /** Windows wider than the text has sentences give the empty graph. */
  lemma CreateGraphTooFewSentences(m: Morph, arrange: set<string> -> seq<string>, text: string, spans: seq<Span>,
                                   selected: set<string>, c: nat)
    requires c > CountChar(text, '.') + 1
    ensures CreateGraph(m, arrange, text, spans, selected, c) == Built(EmptyGraph)
  {
    var idx := BuildIndex(m, Extract(m, spans, selected, DefaultMinLength), selected);
    var tally := Tally(m, arrange, idx, text, c);
    TallyTooFewSentences(m, arrange, idx, text, c);
    var ops := EdgeOps(idx, tally, idx.keys);
    assert forall k :: k !in ops;
  }
}
