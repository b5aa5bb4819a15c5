/** The entity catalog and the word-frequency table of `modules/stats.py`.

    The NLP services are not modelled: named-entity recognition and spaCy
    tagging arrive as their outputs (`Span`s and `Token`s), and pymorphy2's
    base form and Python's `str.lower` arrive as the two functions of a
    `Morph`, about which nothing is assumed unless a lemma says so. */
module Stats {
  import opened Wrappers
  import opened Strings
  import opened Dicts

  /** The morphological capabilities: `lower` is `str.lower`, `baseForm` is
      `morph.parse(word)[0].normal_form`. */
  datatype Morph = Morph(lower: string -> string, baseForm: string -> string)

  function Lemmatise(m: Morph, words: seq<string>): (ls: seq<string>)
    ensures |ls| == |words|
    ensures forall i :: 0 <= i < |words| ==> ls[i] == m.baseForm(words[i])
  {
    seq(|words|, i requires 0 <= i < |words| => m.baseForm(words[i]))
  }

  /** `normalize_with_morph`: split on whitespace, replace every word by its
      base form, rejoin with single spaces. */
  function Normalize(m: Morph, text: string): (r: string)
    ensures AllSpace(text) ==> r == []
  {
    SplitWordsBlank(text);
    JoinWith(" ", Lemmatise(m, SplitWords(text)))
  }

  /** The base form of a word is itself a word: non-empty, without
      whitespace. */
  ghost predicate WordsToWords(m: Morph) {
    forall w :: w != [] && SpaceFree(w) ==> m.baseForm(w) != [] && SpaceFree(m.baseForm(w))
  }

  /** The base form of a base form is itself. */
  ghost predicate LemmaIdempotent(m: Morph) {
    forall w :: w != [] && SpaceFree(w) ==> m.baseForm(m.baseForm(w)) == m.baseForm(w)
  }

  /** The words of a normalised text are the base forms of the original
      words, one for one; in particular the word count is preserved. */
  lemma NormalizeWords(m: Morph, text: string)
    requires WordsToWords(m)
    ensures SplitWords(Normalize(m, text)) == Lemmatise(m, SplitWords(text))
    ensures |SplitWords(Normalize(m, text))| == |SplitWords(text)|
  {
    SplitWordsJoin(Lemmatise(m, SplitWords(text)));
  }

  /** Normalising twice is normalising once, when base forms are fixed
      points of the lemmatiser. */
  lemma NormalizeIdempotent(m: Morph, text: string)
    requires WordsToWords(m) && LemmaIdempotent(m)
    ensures Normalize(m, Normalize(m, text)) == Normalize(m, text)
  {
    var ls := Lemmatise(m, SplitWords(text));
    NormalizeWords(m, text);
    assert Lemmatise(m, ls) == ls;
  }

  // ---------------------------------------------------------------------
  // Named entities

  /** One NER span: its type tag (`PER`, `LOC`, `ORG`, ...) and the normal
      form the NER library computed for it. */
  datatype Span = Span(tag: string, normal: string)

  /** Lemmas the extractor always discards. */
  const Stoplist: seq<string> := ["луна", "нет", "гестас", "пила"]

  const DefaultMinLength: nat := 3

  /** The catalog key of a span: its normal form stripped, lower-cased and
      then normalised word by word. */
  function EntityKey(m: Morph, sp: Span): string {
    Normalize(m, m.lower(Strip(sp.normal)))
  }

  predicate Admits(m: Morph, selected: set<string>, minLength: int, sp: Span) {
    && sp.tag in selected
    && |EntityKey(m, sp)| >= minLength
    && EntityKey(m, sp) !in Stoplist
  }

  /** The (tag, key) pairs of the admitted spans, in span order. */
  function Admitted(m: Morph, selected: set<string>, minLength: int, spans: seq<Span>)
    : (ps: seq<(string, string)>)
    ensures |ps| <= |spans|
    ensures forall i :: 0 <= i < |ps| ==>
      ps[i].0 in selected && |ps[i].1| >= minLength && ps[i].1 !in Stoplist
  {
    if spans == [] then []
    else
      var ps := Admitted(m, selected, minLength, spans[..|spans| - 1]);
      var sp := spans[|spans| - 1];
      if Admits(m, selected, minLength, sp) then ps + [(sp.tag, EntityKey(m, sp))] else ps
  }

  /** The keys paired with `tag`, in order. */
  function KeysOf(ps: seq<(string, string)>, tag: string): (ks: seq<string>)
    ensures |ks| <= |ps|
  {
    if ps == [] then []
    else
      var ks := KeysOf(ps[..|ps| - 1], tag);
      if ps[|ps| - 1].0 == tag then ks + [ps[|ps| - 1].1] else ks
  }

  /** tag -> key -> number of mentions, both levels in first-seen order. */
  type Catalog = Dict<string, Dict<string, nat>>

  ghost predicate CatalogValid(c: Catalog) {
    c.Valid() && forall tag :: tag in c.vals ==> c.vals[tag].Valid()
  }

  /** One iteration of the span loop of `extract_named_entities_natasha`:
      skip the span unless its tag is selected and its key is long enough
      and not on the stoplist, otherwise count it under (tag, key). */
  function AddSpan(c: Catalog, m: Morph, selected: set<string>, minLength: int, sp: Span): (c': Catalog)
    requires CatalogValid(c)
    ensures CatalogValid(c')
    ensures forall tag :: tag in c'.vals ==> tag in c.vals || tag == sp.tag
  {
    if sp.tag !in selected then c
    else
      var key := EntityKey(m, sp);
      if |key| < minLength || key in Stoplist then c
      else
        var inner := if sp.tag in c.vals then c.vals[sp.tag] else Empty();
        PutValid(c, sp.tag, Bump(inner, key));
        c.Put(sp.tag, Bump(inner, key))
  }

  /** Storing a valid inner Counter keeps the catalog valid. */
  lemma PutValid(c: Catalog, tag: string, inner: Dict<string, nat>)
    requires CatalogValid(c) && inner.Valid()
    ensures CatalogValid(c.Put(tag, inner))
  {
    var c' := c.Put(tag, inner);
    forall t | t in c'.vals ensures c'.vals[t].Valid() {
      if t != tag {
        assert c'.vals[t] == c.vals[t];
      }
    }
  }

  /** `extract_named_entities_natasha` over the spans the NER produced:
      a catalog whose tags are all selected ones. */
  function Extract(m: Morph, spans: seq<Span>, selected: set<string>, minLength: int)
    : (c: Catalog)
    ensures CatalogValid(c)
    ensures forall tag :: tag in c.vals ==> tag in selected
    decreases |spans|
  {
    if spans == [] then Empty()
    else
      var c := Extract(m, spans[..|spans| - 1], selected, minLength);
      AddSpan(c, m, selected, minLength, spans[|spans| - 1])
  }

  /** How the keys admitted under one tag grow by one span. */
  lemma ExtractStep(m: Morph, spans: seq<Span>, selected: set<string>, minLength: int, tag: string)
    requires spans != []
    ensures var sp := spans[|spans| - 1];
      KeysOf(Admitted(m, selected, minLength, spans), tag)
      == KeysOf(Admitted(m, selected, minLength, spans[..|spans| - 1]), tag)
         + (if Admits(m, selected, minLength, sp) && sp.tag == tag then [EntityKey(m, sp)] else [])
  {
    var ps := Admitted(m, selected, minLength, spans[..|spans| - 1]);
    var sp := spans[|spans| - 1];
    if Admits(m, selected, minLength, sp) {
      var ps' := ps + [(sp.tag, EntityKey(m, sp))];
      assert ps'[..|ps'| - 1] == ps;
    }
  }

  /** Each tag's table in the catalog is exactly the Counter of the keys
      admitted under that tag, in span order; a tag is present exactly when
      some span was admitted under it. */
  lemma {:induction false} ExtractIsCounter(m: Morph, spans: seq<Span>, selected: set<string>, minLength: int, tag: string)
    ensures var c := Extract(m, spans, selected, minLength);
      var ks := KeysOf(Admitted(m, selected, minLength, spans), tag);
      && (tag in c.vals <==> ks != [])
      && (tag in c.vals ==> c.vals[tag] == CountAll(ks))
    decreases |spans|
  {
    if spans != [] {
      var prefix := spans[..|spans| - 1];
      var sp := spans[|spans| - 1];
      var c := Extract(m, prefix, selected, minLength);
      var ks := KeysOf(Admitted(m, selected, minLength, prefix), tag);
      ExtractIsCounter(m, prefix, selected, minLength, tag);
      ExtractStep(m, spans, selected, minLength, tag);
      assert Extract(m, spans, selected, minLength) == AddSpan(c, m, selected, minLength, sp);
      AddSpanCounter(c, m, selected, minLength, sp, tag, ks);
    }
  }

  /** A tag's entities are listed in the order in which they were first
      admitted under it. */
  lemma ExtractOrder(m: Morph, spans: seq<Span>, selected: set<string>, minLength: int, tag: string)
    ensures var c := Extract(m, spans, selected, minLength);
      var ks := KeysOf(Admitted(m, selected, minLength, spans), tag);
      tag in c.vals ==>
        && (forall k :: k in c.vals[tag].keys <==> k in ks)
        && (forall i, j :: 0 <= i < j < |c.vals[tag].keys| ==>
              First(ks, c.vals[tag].keys[i]) < First(ks, c.vals[tag].keys[j]))
  {
    ExtractIsCounter(m, spans, selected, minLength, tag);
    CountAllOrder(KeysOf(Admitted(m, selected, minLength, spans), tag));
  }

  /** One loop iteration keeps each tag's table equal to the Counter of the
      keys admitted under it so far. */
  lemma AddSpanCounter(c: Catalog, m: Morph, selected: set<string>, minLength: int, sp: Span, tag: string, ks: seq<string>)
    requires CatalogValid(c)
    requires tag in c.vals <==> ks != []
    requires tag in c.vals ==> c.vals[tag] == CountAll(ks)
    ensures var c' := AddSpan(c, m, selected, minLength, sp);
      var ks' := ks + (if Admits(m, selected, minLength, sp) && sp.tag == tag then [EntityKey(m, sp)] else []);
      && (tag in c'.vals <==> ks' != [])
      && (tag in c'.vals ==> c'.vals[tag] == CountAll(ks'))
  {
    if Admits(m, selected, minLength, sp) && sp.tag == tag {
      var key := EntityKey(m, sp);
      CountAllSnoc(ks, key);
      if tag !in c.vals {
        assert ks == [];
        assert CountAll(ks) == Empty();
      }
    } else {
      assert ks + [] == ks;
    }
  }

  /** Every tag in the catalog is one of the selected labels, and every
      key passes the length and stoplist filters. */
  lemma ExtractAdmissible(m: Morph, spans: seq<Span>, selected: set<string>, minLength: int, tag: string, key: string)
    requires tag in Extract(m, spans, selected, minLength).vals
    requires key in Extract(m, spans, selected, minLength).vals[tag].vals
    ensures tag in selected && |key| >= minLength && key !in Stoplist
  {
    var ps := Admitted(m, selected, minLength, spans);
    ExtractIsCounter(m, spans, selected, minLength, tag);
    assert key in CountAll(KeysOf(ps, tag)).vals;
    KeysOfSource(ps, tag, key);
    var i :| 0 <= i < |ps| && ps[i] == (tag, key);
  }

  lemma {:induction false} KeysOfSource(ps: seq<(string, string)>, tag: string, key: string)
    requires key in KeysOf(ps, tag)
    ensures (tag, key) in ps
    decreases |ps|
  {
    var ks := KeysOf(ps[..|ps| - 1], tag);
    if key in ks {
      KeysOfSource(ps[..|ps| - 1], tag, key);
    }
  }

  lemma {:induction false} KeysOfCount(ps: seq<(string, string)>, tag: string, key: string)
    ensures multiset(KeysOf(ps, tag))[key] == multiset(ps)[(tag, key)]
    decreases |ps|
  {
    if ps != [] {
      var prefix := ps[..|ps| - 1];
      KeysOfCount(prefix, tag, key);
      assert ps == prefix + [ps[|ps| - 1]];
    }
  }

  /** Each count is the number of admitted spans with that tag and key;
      every count is positive and no tag has an empty table. */
  lemma ExtractCounts(m: Morph, spans: seq<Span>, selected: set<string>, minLength: int, tag: string, key: string)
    ensures var c := Extract(m, spans, selected, minLength);
      var ps := Admitted(m, selected, minLength, spans);
      && (tag in c.vals ==> c.vals[tag].Get(key, 0) == multiset(ps)[(tag, key)])
      && (tag !in c.vals ==> multiset(ps)[(tag, key)] == 0)
      && (tag in c.vals ==> c.vals[tag].keys != [])
      && (tag in c.vals && key in c.vals[tag].vals ==> c.vals[tag].vals[key] >= 1)
  {
    var c := Extract(m, spans, selected, minLength);
    var ps := Admitted(m, selected, minLength, spans);
    var ks := KeysOf(ps, tag);
    ExtractIsCounter(m, spans, selected, minLength, tag);
    KeysOfCount(ps, tag, key);
    if tag in c.vals {
      CountAllPositive(ks);
      assert ks[0] in CountAll(ks).vals;
    } else {
      assert ks == [];
    }
  }

  /** Per-tag totals of a catalog, as a dictionary in tag order. */
  function TagTotals(c: Catalog): (t: Dict<string, nat>)
    ensures c.Valid() ==> t.Valid()
    ensures t.keys == c.keys
  {
    Dict(c.keys, map tag | tag in c.vals :: Sum(c.vals[tag].keys, c.vals[tag].vals))
  }

  /** Replacing one tag's table by a table whose total is one larger bumps
      that tag's entry of the totals. */
  lemma TagTotalsPut(c: Catalog, tag: string, inner: Dict<string, nat>)
    requires CatalogValid(c) && inner.Valid()
    requires Sum(inner.keys, inner.vals) == TagTotals(c).Get(tag, 0) + 1
    ensures TagTotals(c.Put(tag, inner)) == Bump(TagTotals(c), tag)
  {
    var c' := c.Put(tag, inner);
    var t' := TagTotals(c');
    var u := Bump(TagTotals(c), tag);
    assert t'.keys == u.keys;
    assert t'.vals == u.vals by {
      forall x | x in t'.vals ensures t'.vals[x] == u.vals[x] {
        if x != tag {
          var d := c.vals[x];
          assert c'.vals[x] == d;
        }
      }
    }
  }

  /** Counting one more (tag, key) mention raises the catalog total by one. */
  lemma CountMentionTotal(c: Catalog, tag: string, key: string)
    requires CatalogValid(c)
    ensures var inner := if tag in c.vals then c.vals[tag] else Empty();
      var t := TagTotals(c);
      var t' := TagTotals(c.Put(tag, Bump(inner, key)));
      Sum(t'.keys, t'.vals) == Sum(t.keys, t.vals) + 1
  {
    var inner := if tag in c.vals then c.vals[tag] else Empty();
    var t := TagTotals(c);
    SumBumpOne(inner, key);
    assert Sum(inner.keys, inner.vals) == t.Get(tag, 0);
    TagTotalsPut(c, tag, Bump(inner, key));
    SumBumpOne(t, tag);
  }

  /** One loop iteration adds one to the catalog total exactly when it admits
      the span. */
  lemma AddSpanTotal(c: Catalog, m: Morph, selected: set<string>, minLength: int, sp: Span)
    requires CatalogValid(c)
    ensures var t := TagTotals(c);
      var t' := TagTotals(AddSpan(c, m, selected, minLength, sp));
      Sum(t'.keys, t'.vals) == Sum(t.keys, t.vals) + (if Admits(m, selected, minLength, sp) then 1 else 0)
  {
    if Admits(m, selected, minLength, sp) {
      CountMentionTotal(c, sp.tag, EntityKey(m, sp));
    }
  }

  /** The counts of the whole catalog add up to the number of admitted
      spans. */
  lemma {:induction false} ExtractTotal(m: Morph, spans: seq<Span>, selected: set<string>, minLength: int)
    ensures var t := TagTotals(Extract(m, spans, selected, minLength));
      Sum(t.keys, t.vals) == |Admitted(m, selected, minLength, spans)|
    decreases |spans|
  {
    if spans != [] {
      var prefix := spans[..|spans| - 1];
      var sp := spans[|spans| - 1];
      var c := Extract(m, prefix, selected, minLength);
      ExtractTotal(m, prefix, selected, minLength);
      AddSpanTotal(c, m, selected, minLength, sp);
    }
  }

  // ---------------------------------------------------------------------
  // Word frequencies

  /** One spaCy token: surface text, lemma, coarse part of speech and the
      stop-word and alphabetic flags. */
  datatype Token = Token(text: string, base: string, pos: string, isStop: bool, isAlpha: bool)

  const DefaultPos: set<string> := {"NOUN", "VERB", "ADJ"}

  const DefaultMinWordLen: int := 3

  predicate Keeps(allowed: set<string>, minWordLen: int, t: Token) {
    t.pos in allowed && !t.isStop && t.isAlpha && |t.text| >= minWordLen
  }

  /** Number of kept tokens whose lower-cased lemma is `w`. */
  function KeptWith(m: Morph, allowed: set<string>, minWordLen: int, tokens: seq<Token>, w: string): nat {
    if tokens == [] then 0
    else
      var t := tokens[0];
      (if Keeps(allowed, minWordLen, t) && m.lower(t.base) == w then 1 else 0)
      + KeptWith(m, allowed, minWordLen, tokens[1..], w)
  }

  /** The lower-cased lemmas of the kept tokens, in order. */
  function KeptLemmas(m: Morph, allowed: set<string>, minWordLen: int, tokens: seq<Token>): (ws: seq<string>)
    ensures forall w :: multiset(ws)[w] == KeptWith(m, allowed, minWordLen, tokens, w)
  {
    if tokens == [] then []
    else
      var t := tokens[0];
      var rest := KeptLemmas(m, allowed, minWordLen, tokens[1..]);
      if Keeps(allowed, minWordLen, t) then [m.lower(t.base)] + rest else rest
  }

  /** `get_word_frequencies`: a Counter of lower-cased lemmas over the tokens
      whose part of speech is allowed (NOUN, VERB, ADJ when none is given),
      that are neither stop words nor non-alphabetic, and whose text has at
      least `minWordLen` characters. */
  function WordFrequencies(m: Morph, tokens: seq<Token>, allowedPos: Option<set<string>>, minWordLen: int)
    : (r: Dict<string, nat>)
    ensures r.Valid()
    ensures forall w ::
      r.Get(w, 0) == KeptWith(m, allowedPos.GetOr(DefaultPos), minWordLen, tokens, w)
    ensures forall w :: w in r.vals ==> r.vals[w] >= 1
  {
    var allowed := if allowedPos.None? then DefaultPos else allowedPos.value;
    var ws := KeptLemmas(m, allowed, minWordLen, tokens);
    CountAllPositive(ws);
    CountAll(ws)
  }
}
