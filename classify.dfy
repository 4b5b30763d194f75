/** The meaning of ScriptDetector as functions on values: the bounded scan
    of one token with its tie-break, the cache transitions, and the
    per-column and per-record batch annotation. The class in detector.dfy
    is proved to compute exactly these. */
module Classify {
  import opened Ranges

  type Positive = n: nat | n > 0 witness 1

  /** A confidence score num/den, kept exact instead of as a float. */
  datatype Score = Score(num: nat, den: Positive)

  const Zero: Score := Score(0, 1)
  const One: Score := Score(1, 1)

  /** A threshold such as min_cache_score, as an exact fraction. */
  datatype Ratio = Ratio(num: int, den: Positive)

  /** score >= threshold, by cross-multiplication. */
  predicate AtLeast(s: Score, t: Ratio) {
    s.num * t.den >= t.num * s.den
  }

  /** The detector's settings: sample_chars, default_code, and whether a
      cache file is configured (cache_file is truthy). */
  datatype Config = Config(sampleChars: int, defaultCode: string, hasCacheFile: bool)

  datatype Detection = Detection(lang: string, score: Score)

  // ---------------------------------------------------------------------
  // The bounded scan
  // ---------------------------------------------------------------------

  /** How many significant code points the scan may inspect: the break
      test follows the increment, so at least one always is. */
  function Cap(sampleChars: int): Positive {
    if sampleChars < 1 then 1 else sampleChars
  }

  function Min(a: nat, b: nat): nat {
    if a <= b then a else b
  }

  /** The significant code points the scan inspects. */
  function Inspected(text: string, sampleChars: int): seq<int> {
    var sig := Significant(text);
    sig[..Min(|sig|, Cap(sampleChars))]
  }

  predicate Resolves(cp: int, lang: string) {
    CharLang(cp) == Some(lang)
  }

  /** counts[lang] after scanning p. */
  function Count(p: seq<int>, lang: string): (n: nat)
    ensures n <= |p|
  {
    if p == [] then 0
    else Count(p[..|p| - 1], lang) + if Resolves(p[|p| - 1], lang) then 1 else 0
  }

  /** How many code points of p resolve to some language. */
  function Resolved(p: seq<int>): (n: nat)
    ensures n <= |p|
  {
    if p == [] then 0
    else Resolved(p[..|p| - 1]) + if CharLang(p[|p| - 1]).Some? then 1 else 0
  }

  /** The keys of counts in insertion order: each resolved language once,
      in the order of its first occurrence in p. */
  function FirstSeen(p: seq<int>): seq<string> {
    if p == [] then []
    else
      var ks := FirstSeen(p[..|p| - 1]);
      var l := CharLang(p[|p| - 1]);
      if l.Some? && l.value !in ks then ks + [l.value] else ks
  }

  /** The position of the first code point of p that resolves to lang. */
  function FirstPos(p: seq<int>, lang: string): (k: nat)
    requires Count(p, lang) > 0
    ensures k < |p| && Resolves(p[k], lang)
    ensures forall j :: 0 <= j < k ==> !Resolves(p[j], lang)
  {
    var init := p[..|p| - 1];
    if Count(init, lang) > 0 then
      var k := FirstPos(init, lang);
      assert p[k] == init[k];
      k
    else
      CountZero(init, lang);
      |p| - 1
  }

  /** The counts dict after scanning p: each resolved language with its
      number of code points. */
  function CountMap(p: seq<int>): map<string, nat> {
    map k | k in FirstSeen(p) :: Count(p, k)
  }

  /** max(keys, key=counts.get): the first key with the largest count,
      since a later key replaces the best only when strictly larger. */
  function MaxFirst(keys: seq<string>, counts: map<string, nat>): (w: string)
    requires |keys| > 0 && forall k :: k in keys ==> k in counts
    ensures w in keys
    ensures forall k :: 0 <= k < |keys| ==> counts[keys[k]] <= counts[w]
    ensures exists i :: 0 <= i < |keys| && keys[i] == w && forall j :: 0 <= j < i ==> counts[keys[j]] < counts[w]
  {
    if |keys| == 1 then keys[0]
    else
      var init := keys[..|keys| - 1];
      var b := MaxFirst(init, counts);
      var last := keys[|keys| - 1];
      assert forall k :: 0 <= k < |init| ==> keys[k] == init[k];
      if counts[last] > counts[b] then last else b
  }

  /** The result of the scan over the inspected prefix p. */
  function Scan(p: seq<int>, defaultCode: string): Detection {
    var keys := FirstSeen(p);
    if keys == [] then Detection(defaultCode, Zero)
    else
      var w := MaxFirst(keys, CountMap(p));
      Detection(w, Score(Count(p, w), |p|))
  }

  /** ScriptDetector.detect for the cache contents `cache`. */
  function Detect(cfg: Config, cache: map<string, string>, text: Option<string>): Detection {
    if text.None? || text.value == [] then Detection(cfg.defaultCode, Zero)
    else if text.value in cache && cache[text.value] != [] then Detection(cache[text.value], One)
    else Scan(Inspected(text.value, cfg.sampleChars), cfg.defaultCode)
  }

  // ---------------------------------------------------------------------
  // Facts about the counters
  // ---------------------------------------------------------------------

  lemma {:induction false} CountZero(p: seq<int>, lang: string)
    ensures Count(p, lang) == 0 <==> forall k :: 0 <= k < |p| ==> !Resolves(p[k], lang)
  {
    if p != [] {
      var init := p[..|p| - 1];
      CountZero(init, lang);
      assert forall k :: 0 <= k < |init| ==> p[k] == init[k];
    }
  }

  lemma {:induction false} CountFull(p: seq<int>, lang: string)
    ensures Count(p, lang) == |p| <==> forall k :: 0 <= k < |p| ==> Resolves(p[k], lang)
  {
    if p != [] {
      var init := p[..|p| - 1];
      CountFull(init, lang);
      assert forall k :: 0 <= k < |init| ==> p[k] == init[k];
    }
  }

  lemma {:induction false} CountConcat(a: seq<int>, b: seq<int>, lang: string)
    ensures Count(a + b, lang) == Count(a, lang) + Count(b, lang)
  {
    if b == [] {
      assert a + b == a;
    } else {
      var b' := b[..|b| - 1];
      assert (a + b)[..|a + b| - 1] == a + b';
      CountConcat(a, b', lang);
    }
  }

  predicate NoDups<T(==)>(s: seq<T>) {
    forall i, j :: 0 <= i < j < |s| ==> s[i] != s[j]
  }

  /** The keys of counts are distinct and are exactly the languages with
      a positive count. */
  lemma {:induction false} FirstSeenKeys(p: seq<int>)
    ensures NoDups(FirstSeen(p))
    ensures forall lang :: lang in FirstSeen(p) <==> Count(p, lang) > 0
  {
    if p != [] {
      var init := p[..|p| - 1];
      FirstSeenKeys(init);
    }
  }

  /** The keys of counts are ordered by first occurrence in p. */
  lemma {:induction false} FirstSeenOrder(p: seq<int>)
    ensures forall i, j :: 0 <= i < j < |FirstSeen(p)| ==>
      Count(p, FirstSeen(p)[i]) > 0 && Count(p, FirstSeen(p)[j]) > 0 &&
      FirstPos(p, FirstSeen(p)[i]) < FirstPos(p, FirstSeen(p)[j])
  {
    FirstSeenKeys(p);
    if p != [] {
      var init := p[..|p| - 1];
      FirstSeenOrder(init);
      FirstSeenKeys(init);
      var ks := FirstSeen(init);
      var ks' := FirstSeen(p);
      forall lang | Count(init, lang) > 0
        ensures FirstPos(p, lang) == FirstPos(init, lang)
      {
      }
      forall i, j | 0 <= i < j < |ks'|
        ensures FirstPos(p, ks'[i]) < FirstPos(p, ks'[j])
      {
        assert ks'[i] == ks[i];
        if j == |ks| {
          assert Count(init, ks'[j]) == 0;
        } else {
          assert ks'[j] == ks[j];
        }
      }
    }
  }

  /** counts (a dict, with its keys in insertion order) after scanning p. */
  ghost predicate Tallies(counts: map<string, nat>, keys: seq<string>, p: seq<int>) {
    keys == FirstSeen(p) && counts == CountMap(p)
  }

  /** One more inspected code point, counted as detect does:
      counts[lang] = counts.get(lang, 0) + 1 when it resolves. */
  lemma TallyStep(counts: map<string, nat>, keys: seq<string>, p: seq<int>, cp: int)
    requires Tallies(counts, keys, p)
    ensures var l := CharLang(cp);
      if l.None? then Tallies(counts, keys, p + [cp])
      else if l.value in counts then Tallies(counts[l.value := counts[l.value] + 1], keys, p + [cp])
      else Tallies(counts[l.value := 1], keys + [l.value], p + [cp])
  {
    var l := CharLang(cp);
    if l.None? {
      TallyUnresolved(counts, keys, p, cp);
    } else if l.value in counts {
      TallyKnown(counts, keys, p, cp);
    } else {
      TallyNew(counts, keys, p, cp);
    }
  }

  lemma CountSnoc(p: seq<int>, cp: int)
    ensures (p + [cp])[..|p|] == p
    ensures forall k :: Count(p + [cp], k) == Count(p, k) + if Resolves(cp, k) then 1 else 0
  {
    assert (p + [cp])[..|p|] == p;
  }

  lemma TallyUnresolved(counts: map<string, nat>, keys: seq<string>, p: seq<int>, cp: int)
    requires Tallies(counts, keys, p) && CharLang(cp).None?
    ensures Tallies(counts, keys, p + [cp])
  {
    CountSnoc(p, cp);
    assert CountMap(p + [cp]) == CountMap(p);
  }

  lemma TallyKnown(counts: map<string, nat>, keys: seq<string>, p: seq<int>, cp: int)
    requires Tallies(counts, keys, p) && CharLang(cp).Some? && CharLang(cp).value in counts
    ensures Tallies(counts[CharLang(cp).value := counts[CharLang(cp).value] + 1], keys, p + [cp])
  {
    CountSnoc(p, cp);
    var l := CharLang(cp).value;
    assert CountMap(p + [cp]) == CountMap(p)[l := Count(p, l) + 1];
  }

  lemma TallyNew(counts: map<string, nat>, keys: seq<string>, p: seq<int>, cp: int)
    requires Tallies(counts, keys, p) && CharLang(cp).Some? && CharLang(cp).value !in counts
    ensures Tallies(counts[CharLang(cp).value := 1], keys + [CharLang(cp).value], p + [cp])
  {
    CountSnoc(p, cp);
    FirstSeenKeys(p);
    var l := CharLang(cp).value;
    assert Count(p, l) == 0;
    assert CountMap(p + [cp]) == CountMap(p)[l := 1];
  }

  /** One more key considered by max(): it replaces the best only when
      its count is strictly larger. */
  lemma MaxFirstStep(keys: seq<string>, j: nat, counts: map<string, nat>)
    requires 0 < j < |keys| && forall k :: k in keys ==> k in counts
    ensures MaxFirst(keys[..j + 1], counts) ==
      var b := MaxFirst(keys[..j], counts);
      if counts[keys[j]] > counts[b] then keys[j] else b
  {
    assert keys[..j + 1][..j] == keys[..j];
  }

  /** Sum of counts[k] over a list of keys. */
  function SumCounts(keys: seq<string>, p: seq<int>): nat {
    if keys == [] then 0
    else SumCounts(keys[..|keys| - 1], p) + Count(p, keys[|keys| - 1])
  }

  lemma {:induction false} SumCountsStep(keys: seq<string>, p: seq<int>, cp: int)
    requires NoDups(keys)
    ensures SumCounts(keys, p + [cp]) ==
      SumCounts(keys, p) + if CharLang(cp).Some? && CharLang(cp).value in keys then 1 else 0
  {
    if keys != [] {
      var init := keys[..|keys| - 1];
      assert (p + [cp])[..|p|] == p;
      SumCountsStep(init, p, cp);
      assert keys == init + [keys[|keys| - 1]];
    }
  }

  /** The counters together never exceed the number inspected. */
  lemma {:induction false} SumOfCounts(p: seq<int>)
    ensures SumCounts(FirstSeen(p), p) == Resolved(p) <= |p|
  {
    if p != [] {
      var init := p[..|p| - 1];
      var cp := p[|p| - 1];
      assert p == init + [cp];
      SumOfCounts(init);
      FirstSeenKeys(init);
      var ks := FirstSeen(init);
      SumCountsStep(ks, init, cp);
      if CharLang(cp).Some? && CharLang(cp).value !in ks {
        var l := CharLang(cp).value;
        assert Count(init, l) == 0;
        assert (ks + [l])[..|ks|] == ks;
      }
    }
  }

  // ---------------------------------------------------------------------
  // Properties of detect
  // ---------------------------------------------------------------------

  /** Filtering one more character of t extends the filtered prefix by
      that character exactly when it is significant. */
  lemma SignificantStep(t: string, i: nat)
    requires i < |t|
    ensures Significant(t[..i + 1]) ==
      Significant(t[..i]) + if IsSignificant(t[i] as int) then [t[i] as int] else []
  {
    assert t[..i + 1] == t[..i] + [t[i]];
    SignificantConcat(t[..i], [t[i]]);
    SignificantSingle(t[i]);
  }

  /** Where the scan loop of detect stops (the cap reached, or the end of
      t), it has seen exactly the inspected code points. */
  lemma ScanStopsAtCap(t: string, i: nat, sampleChars: int)
    requires i <= |t|
    requires |Significant(t[..i])| <= Cap(sampleChars)
    requires |Significant(t[..i])| == Cap(sampleChars) || i == |t|
    ensures Significant(t[..i]) == Inspected(t, sampleChars)
  {
    SignificantPrefix(t, i);
    if i == |t| {
      assert t[..i] == t;
    }
  }

  /** The early returns: no text, the empty text, and a cache hit with a
      non-empty value; an empty cached value is falsy and is ignored. */
  lemma DetectEarlyReturns(cfg: Config, cache: map<string, string>, text: string)
    ensures Detect(cfg, cache, None) == Detection(cfg.defaultCode, Zero)
    ensures Detect(cfg, cache, Some([])) == Detection(cfg.defaultCode, Zero)
    ensures text != [] && text in cache && cache[text] != [] ==>
      Detect(cfg, cache, Some(text)) == Detection(cache[text], One)
    ensures text in cache && cache[text] == [] ==>
      Detect(cfg, cache, Some(text)) == Detect(cfg, cache - {text}, Some(text))
  {
  }

  /** Only the entry for the text itself can influence detect. */
  lemma DetectReadsOneEntry(cfg: Config, c1: map<string, string>, c2: map<string, string>, text: string)
    requires (text in c1 && c1[text] != []) <==> (text in c2 && c2[text] != [])
    requires text in c1 && c1[text] != [] ==> c1[text] == c2[text]
    ensures Detect(cfg, c1, Some(text)) == Detect(cfg, c2, Some(text))
  {
  }

  /** The scan inspects min(#significant, max(sample_chars, 1)) code points,
      taken from the front of the significant sequence. */
  lemma InspectedIsBoundedPrefix(text: string, sampleChars: int)
    ensures Inspected(text, sampleChars) <= Significant(text)
    ensures |Inspected(text, sampleChars)| == Min(|Significant(text)|, Cap(sampleChars))
    ensures Significant(text) != [] ==> |Inspected(text, sampleChars)| >= 1
  {
  }

  /** Once the cap is reached nothing after it matters: appending any text
      leaves the inspected code points unchanged. */
  lemma ScanIgnoresTail(text: string, tail: string, sampleChars: int)
    requires |Significant(text)| >= Cap(sampleChars)
    ensures Inspected(text + tail, sampleChars) == Inspected(text, sampleChars)
  {
    SignificantConcat(text, tail);
    var a := Significant(text);
    var n := Cap(sampleChars);
    assert (a + Significant(tail))[..n] == a[..n];
  }

  /** Nothing inspected resolved: the default code with score 0. */
  lemma ScanNothingResolved(p: seq<int>, defaultCode: string)
    ensures FirstSeen(p) == [] <==> forall k :: 0 <= k < |p| ==> CharLang(p[k]).None?
    ensures FirstSeen(p) == [] ==> Scan(p, defaultCode) == Detection(defaultCode, Zero)
  {
    FirstSeenKeys(p);
    if FirstSeen(p) == [] {
      forall k | 0 <= k < |p|
        ensures CharLang(p[k]).None?
      {
        if CharLang(p[k]).Some? {
          CountZero(p, CharLang(p[k]).value);
        }
      }
    } else {
      var l := FirstSeen(p)[0];
      CountZero(p, l);
    }
  }

  /** Otherwise the winner's count is positive, at most the number
      inspected (the denominator), and the largest of all languages. */
  lemma ScanWinner(p: seq<int>, defaultCode: string)
    requires FirstSeen(p) != []
    ensures Scan(p, defaultCode).score == Score(Count(p, Scan(p, defaultCode).lang), |p|)
    ensures 0 < Scan(p, defaultCode).score.num <= Scan(p, defaultCode).score.den
    ensures forall lang :: Count(p, lang) <= Count(p, Scan(p, defaultCode).lang)
  {
    FirstSeenKeys(p);
    var ks := FirstSeen(p);
    var w := MaxFirst(ks, CountMap(p));
    forall lang
      ensures Count(p, lang) <= Count(p, w)
    {
      if Count(p, lang) > 0 {
        var j :| 0 <= j < |ks| && ks[j] == lang;
      }
    }
  }

  /** Among languages tied with the winner, the winner is the one whose
      first code point comes first in the inspected prefix. */
  lemma ScanTieBreak(p: seq<int>, defaultCode: string, lang: string)
    requires FirstSeen(p) != []
    requires lang != Scan(p, defaultCode).lang
    requires Count(p, lang) == Count(p, Scan(p, defaultCode).lang)
    ensures Count(p, lang) > 0
    ensures FirstPos(p, Scan(p, defaultCode).lang) < FirstPos(p, lang)
  {
    FirstSeenKeys(p);
    var ks := FirstSeen(p);
    var counts := CountMap(p);
    var w := MaxFirst(ks, counts);
    assert counts[w] == Count(p, w) > 0;
    var j :| 0 <= j < |ks| && ks[j] == lang;
    MaxFirstBefore(ks, counts, j);
    var i :| 0 <= i < j && ks[i] == w;
    FirstSeenBefore(p, i, j);
  }

  /** A key tied with the result of max() but different from it comes
      after it. */
  lemma MaxFirstBefore(keys: seq<string>, counts: map<string, nat>, j: nat)
    requires |keys| > 0 && forall k :: k in keys ==> k in counts
    requires j < |keys| && keys[j] != MaxFirst(keys, counts)
    requires counts[keys[j]] == counts[MaxFirst(keys, counts)]
    ensures exists i :: 0 <= i < j && keys[i] == MaxFirst(keys, counts)
  {
    var w := MaxFirst(keys, counts);
    var i :| 0 <= i < |keys| && keys[i] == w && forall k :: 0 <= k < i ==> counts[keys[k]] < counts[w];
    assert i != j;
    assert !(j < i);
  }

  lemma FirstSeenBefore(p: seq<int>, i: nat, j: nat)
    requires i < j < |FirstSeen(p)|
    ensures Count(p, FirstSeen(p)[i]) > 0 && Count(p, FirstSeen(p)[j]) > 0
    ensures FirstPos(p, FirstSeen(p)[i]) < FirstPos(p, FirstSeen(p)[j])
  {
    FirstSeenOrder(p);
  }

  /** The score is exactly 1 iff every inspected code point resolved to
      the winner. */
  lemma ScanScoreOne(p: seq<int>, defaultCode: string)
    ensures var r := Scan(p, defaultCode);
      r.score.num == r.score.den <==> p != [] && forall k :: 0 <= k < |p| ==> Resolves(p[k], r.lang)
  {
    var r := Scan(p, defaultCode);
    ScanNothingResolved(p, defaultCode);
    if FirstSeen(p) != [] {
      CountFull(p, r.lang);
    } else if p != [] {
      assert CharLang(p[0]).None?;
    }
  }

  /** A token whose inspected code points all belong to one language gets
      that language with score 1. */
  lemma ScanUniform(p: seq<int>, lang: string, defaultCode: string)
    requires p != [] && forall k :: 0 <= k < |p| ==> Resolves(p[k], lang)
    ensures Scan(p, defaultCode) == Detection(lang, Score(|p|, |p|))
  {
    FirstSeenKeys(p);
    CountFull(p, lang);
    assert lang in FirstSeen(p);
    var w := Scan(p, defaultCode).lang;
    assert w in FirstSeen(p);
    CountZero(p, w);
    assert Resolves(p[0], w);
  }

  // ---------------------------------------------------------------------
  // The cache
  // ---------------------------------------------------------------------

  /** The in-memory cache and dirty flag, with every map written to the
      cache file so far (the write itself is not modelled). */
  datatype CacheState = CacheState(entries: map<string, string>, dirty: bool, snapshots: seq<map<string, string>>)

  /** _add_to_cache: sets one entry and marks the cache dirty. */
  function AddEntry(st: CacheState, phrase: string, lang: string): (r: CacheState)
    ensures phrase in r.entries && r.entries[phrase] == lang && r.dirty
    ensures r.entries.Keys == st.entries.Keys + {phrase}
    ensures forall p :: p in st.entries && p != phrase ==> r.entries[p] == st.entries[p]
    ensures r.snapshots == st.snapshots
  {
    CacheState(st.entries[phrase := lang], true, st.snapshots)
  }

  /** A flush has nothing left to write: either clean or no target. */
  predicate Settled(cfg: Config, st: CacheState) {
    !(st.dirty && cfg.hasCacheFile)
  }

  /** _flush_cache: writes the whole map once and clears dirty, when dirty
      and a target exists; otherwise changes nothing. */
  function Flush(cfg: Config, st: CacheState): (r: CacheState)
    ensures r.entries == st.entries && Settled(cfg, r)
    ensures Settled(cfg, st) <==> r == st
    ensures !Settled(cfg, st) <==> r.snapshots == st.snapshots + [st.entries]
    ensures |r.snapshots| <= |st.snapshots| + 1
  {
    if st.dirty && cfg.hasCacheFile then CacheState(st.entries, false, st.snapshots + [st.entries])
    else st
  }

  /** A second consecutive flush writes nothing. */
  lemma FlushTwice(cfg: Config, st: CacheState)
    ensures Flush(cfg, Flush(cfg, st)) == Flush(cfg, st)
  {
  }

  // ---------------------------------------------------------------------
  // Batch annotation
  // ---------------------------------------------------------------------

  /** A table of string columns: column name to its cells. */
  type Frame = map<string, seq<string>>

  /** The distinct values of s in order of first appearance (Series.unique). */
  function Distinct(s: seq<string>): (d: seq<string>)
    ensures NoDups(d)
    ensures forall v :: v in d <==> v in s
  {
    if s == [] then []
    else
      var d := Distinct(s[..|s| - 1]);
      var v := s[|s| - 1];
      assert forall x :: x in s <==> x in s[..|s| - 1] || x == v;
      if v in d then d else d + [v]
  }

  /** Whether a detection is stored when auto-caching. */
  predicate Qualifies(d: Detection, autoCache: bool, minScore: Ratio) {
    autoCache && AtLeast(d.score, minScore)
  }

  /** The inner loop of annotate_frame over the values: builds lang_map
      and threads the cache through detect and _add_to_cache. */
  function LabelValues(cfg: Config, st: CacheState, vals: seq<string>, autoCache: bool, minScore: Ratio)
    : (map<string, string>, CacheState)
  {
    if vals == [] then (map[], st)
    else
      var (m, s) := LabelValues(cfg, st, vals[..|vals| - 1], autoCache, minScore);
      var v := vals[|vals| - 1];
      var d := Detect(cfg, s.entries, Some(v));
      (m[v := d.lang], if Qualifies(d, autoCache, minScore) then AddEntry(s, v, d.lang) else s)
  }

  /** ser.map(lang_map). */
  function Broadcast(ser: seq<string>, m: map<string, string>): seq<string>
    requires forall i :: 0 <= i < |ser| ==> ser[i] in m
  {
    seq(|ser|, i requires 0 <= i < |ser| => m[ser[i]])
  }

  /** The labels of one column and the cache afterwards. */
  function AnnotateColumn(cfg: Config, st: CacheState, ser: seq<string>, autoCache: bool, minScore: Ratio)
    : (seq<string>, CacheState)
  {
    var (m, s) := LabelValues(cfg, st, Distinct(ser), autoCache, minScore);
    LabelValuesKeys(cfg, st, Distinct(ser), autoCache, minScore);
    (Broadcast(ser, m), s)
  }

  lemma {:induction false} LabelValuesKeys(cfg: Config, st: CacheState, vals: seq<string>, autoCache: bool, minScore: Ratio)
    ensures LabelValues(cfg, st, vals, autoCache, minScore).0.Keys == set v | v in vals
  {
    if vals != [] {
      LabelValuesKeys(cfg, st, vals[..|vals| - 1], autoCache, minScore);
      assert forall x :: x in vals <==> x in vals[..|vals| - 1] || x == vals[|vals| - 1];
    }
  }

  /** What the label column is named. */
  function LangColumn(col: string): string {
    col + "_lang"
  }

  /** Frame, cache and the first listed column that was missing, if any
      (pandas raises KeyError there, after the earlier columns were added). */
  datatype FrameRun = FrameRun(frame: Frame, state: CacheState, missing: Option<string>)

  /** The outer loop of annotate_frame over the listed columns. */
  function AnnotateColumns(cfg: Config, st: CacheState, df: Frame, cols: seq<string>, autoCache: bool, minScore: Ratio)
    : FrameRun
  {
    if cols == [] then FrameRun(df, st, None)
    else
      var run := AnnotateColumns(cfg, st, df, cols[..|cols| - 1], autoCache, minScore);
      var c := cols[|cols| - 1];
      if run.missing.Some? then run
      else if c !in run.frame then FrameRun(run.frame, run.state, Some(c))
      else
        var (labels, s) := AnnotateColumn(cfg, run.state, run.frame[c], autoCache, minScore);
        FrameRun(run.frame[LangColumn(c) := labels], s, None)
  }

  /** annotate_frame: all columns, then one flush when auto-caching. */
  function AnnotateFrame(cfg: Config, st: CacheState, df: Frame, cols: seq<string>, autoCache: bool, minScore: Ratio)
    : FrameRun
  {
    var run := AnnotateColumns(cfg, st, df, cols, autoCache, minScore);
    if run.missing.None? && autoCache then FrameRun(run.frame, Flush(cfg, run.state), None) else run
  }

  /** Output record, cache, and the key whose lookup raised KeyError. */
  datatype RecordRun = RecordRun(out: map<string, string>, state: CacheState, missing: Option<string>)

  /** record.get(k, "") */
  function GetOrEmpty(record: map<string, string>, k: string): string {
    if k in record then record[k] else ""
  }

  /** The loop of annotate_json over the requested keys. The add-to-cache
      branch reads record[k], which raises KeyError for a missing key. */
  function AnnotateKeys(cfg: Config, st: CacheState, record: map<string, string>, keys: seq<string>,
                        autoCache: bool, minScore: Ratio): RecordRun
  {
    if keys == [] then RecordRun(record, st, None)
    else
      var run := AnnotateKeys(cfg, st, record, keys[..|keys| - 1], autoCache, minScore);
      var k := keys[|keys| - 1];
      if run.missing.Some? then run
      else
        var d := Detect(cfg, run.state.entries, Some(GetOrEmpty(record, k)));
        if Qualifies(d, autoCache, minScore) then
          if k !in record then RecordRun(run.out, run.state, Some(k))
          else RecordRun(run.out[LangColumn(k) := d.lang], AddEntry(run.state, record[k], d.lang), None)
        else RecordRun(run.out[LangColumn(k) := d.lang], run.state, None)
  }

  /** annotate_json: all keys, then one flush when auto-caching. */
  function AnnotateJson(cfg: Config, st: CacheState, record: map<string, string>, keys: seq<string>,
                        autoCache: bool, minScore: Ratio): RecordRun
  {
    var run := AnnotateKeys(cfg, st, record, keys, autoCache, minScore);
    if run.missing.None? && autoCache then RecordRun(run.out, Flush(cfg, run.state), None) else run
  }

  // ---------------------------------------------------------------------
  // Properties of batch annotation
  // ---------------------------------------------------------------------

  /** The label columns written for a list of columns or keys. */
  function Targets(cols: seq<string>): set<string> {
    set c | c in cols :: LangColumn(c)
  }

  lemma LangColumnInjective(c: string, d: string)
    requires LangColumn(c) == LangColumn(d)
    ensures c == d
  {
    assert |c| == |d|;
    assert c == LangColumn(c)[..|c|];
    assert d == LangColumn(d)[..|d|];
  }

  /** Whether value v is stored by auto-caching, judged against the cache
      as it was before the column. */
  predicate Stored(cfg: Config, st: CacheState, v: string, autoCache: bool, minScore: Ratio) {
    Qualifies(Detect(cfg, st.entries, Some(v)), autoCache, minScore)
  }

  /** Cache s only extends st with labels detect gives against st: every
      key of st is kept, and every entry is the original one or that label. */
  predicate Agrees(cfg: Config, st: CacheState, s: CacheState) {
    && (forall p :: p in st.entries ==> p in s.entries)
    && (forall p :: p in s.entries ==>
          (p in st.entries && s.entries[p] == st.entries[p]) || s.entries[p] == Detect(cfg, st.entries, Some(p)).lang)
  }

  /** Against an agreeing cache, detect gives the same label. */
  lemma AgreesDetect(cfg: Config, st: CacheState, s: CacheState, v: string)
    requires Agrees(cfg, st, s)
    ensures Detect(cfg, s.entries, Some(v)).lang == Detect(cfg, st.entries, Some(v)).lang
  {
  }

  /** Caching what detect answers keeps the cache agreeing. */
  lemma AgreesAdd(cfg: Config, st: CacheState, s: CacheState, v: string)
    requires Agrees(cfg, st, s)
    ensures Agrees(cfg, st, AddEntry(s, v, Detect(cfg, s.entries, Some(v)).lang))
  {
    AgreesDetect(cfg, st, s, v);
  }

  /** The value loop only caches labels detect gives against st. */
  lemma {:induction false} LabelValuesAgrees(cfg: Config, st0: CacheState, st: CacheState, vals: seq<string>,
                                             autoCache: bool, minScore: Ratio)
    requires Agrees(cfg, st0, st)
    ensures Agrees(cfg, st0, LabelValues(cfg, st, vals, autoCache, minScore).1)
  {
    if vals != [] {
      LabelValuesAgrees(cfg, st0, st, vals[..|vals| - 1], autoCache, minScore);
      var s := LabelValues(cfg, st, vals[..|vals| - 1], autoCache, minScore).1;
      AgreesAdd(cfg, st0, s, vals[|vals| - 1]);
    }
  }

  /** A value outside vals keeps its cache entry through the loop. */
  lemma {:induction false} LabelValuesOutside(cfg: Config, st: CacheState, vals: seq<string>, autoCache: bool, minScore: Ratio, p: string)
    requires p !in vals
    ensures var s := LabelValues(cfg, st, vals, autoCache, minScore).1;
      && (p in s.entries <==> p in st.entries)
      && (p in st.entries ==> s.entries[p] == st.entries[p])
  {
    if vals != [] {
      LabelValuesOutside(cfg, st, vals[..|vals| - 1], autoCache, minScore, p);
    }
  }

  /** The loop writes nothing, and without auto-caching changes nothing. */
  lemma {:induction false} LabelValuesPassive(cfg: Config, st: CacheState, vals: seq<string>, autoCache: bool, minScore: Ratio)
    ensures var s := LabelValues(cfg, st, vals, autoCache, minScore).1;
      s.snapshots == st.snapshots && (!autoCache ==> s == st)
  {
    if vals != [] {
      LabelValuesPassive(cfg, st, vals[..|vals| - 1], autoCache, minScore);
    }
  }

  /** Each value of distinct vals is labelled against the cache the loop
      started with, and is cached exactly when that detection qualifies. */
  lemma {:induction false} LabelValuesAt(cfg: Config, st: CacheState, vals: seq<string>, autoCache: bool, minScore: Ratio, p: string)
    requires NoDups(vals) && p in vals
    ensures var (m, s) := LabelValues(cfg, st, vals, autoCache, minScore);
      && p in m && m[p] == Detect(cfg, st.entries, Some(p)).lang
      && (p in s.entries <==> p in st.entries || Stored(cfg, st, p, autoCache, minScore))
      && (p in s.entries ==> s.entries[p] == if Stored(cfg, st, p, autoCache, minScore) then m[p] else st.entries[p])
  {
    var init := vals[..|vals| - 1];
    var v := vals[|vals| - 1];
    assert NoDups(init);
    var (m, s) := LabelValues(cfg, st, init, autoCache, minScore);
    if p == v {
      assert v !in init;
      LabelValuesOutside(cfg, st, init, autoCache, minScore, p);
      DetectReadsOneEntry(cfg, s.entries, st.entries, v);
    } else {
      assert p in init;
      LabelValuesAt(cfg, st, init, autoCache, minScore, p);
    }
  }

  /** The loop leaves the cache dirty iff it was, or some value qualified. */
  lemma {:induction false} LabelValuesDirty(cfg: Config, st: CacheState, vals: seq<string>, autoCache: bool, minScore: Ratio)
    requires NoDups(vals)
    ensures LabelValues(cfg, st, vals, autoCache, minScore).1.dirty <==>
      st.dirty || exists v :: v in vals && Stored(cfg, st, v, autoCache, minScore)
  {
    if vals != [] {
      var init := vals[..|vals| - 1];
      var v := vals[|vals| - 1];
      assert NoDups(init);
      assert v !in init;
      assert forall x :: x in vals <==> x in init || x == v;
      LabelValuesDirty(cfg, st, init, autoCache, minScore);
      LabelValuesOutside(cfg, st, init, autoCache, minScore, v);
      var s := LabelValues(cfg, st, init, autoCache, minScore).1;
      DetectReadsOneEntry(cfg, s.entries, st.entries, v);
    }
  }

  /** Over distinct values, caching during the loop never changes a label:
      each value is labelled as detect would label it against the cache the
      loop started with, and the cache gains exactly the qualifying values. */
  lemma LabelValuesClosedForm(cfg: Config, st: CacheState, vals: seq<string>, autoCache: bool, minScore: Ratio)
    requires NoDups(vals)
    ensures var (m, s) := LabelValues(cfg, st, vals, autoCache, minScore);
      && m.Keys == (set v | v in vals)
      && (forall v :: v in vals ==> m[v] == Detect(cfg, st.entries, Some(v)).lang)
      && s.snapshots == st.snapshots
      && (!autoCache ==> s == st)
      && (forall p :: p in s.entries <==> p in st.entries || (p in vals && Stored(cfg, st, p, autoCache, minScore)))
      && (forall p :: p in s.entries ==>
            s.entries[p] == if p in vals && Stored(cfg, st, p, autoCache, minScore) then m[p] else st.entries[p])
      && (s.dirty <==> st.dirty || exists v :: v in vals && Stored(cfg, st, v, autoCache, minScore))
  {
    LabelValuesKeys(cfg, st, vals, autoCache, minScore);
    LabelValuesDirty(cfg, st, vals, autoCache, minScore);
    var (m, s) := LabelValues(cfg, st, vals, autoCache, minScore);
    forall p
      ensures (p in s.entries <==> p in st.entries || (p in vals && Stored(cfg, st, p, autoCache, minScore)))
      ensures p in s.entries ==>
        s.entries[p] == if p in vals && Stored(cfg, st, p, autoCache, minScore) then m[p] else st.entries[p]
      ensures p in vals ==> m[p] == Detect(cfg, st.entries, Some(p)).lang
    {
      if p in vals {
        LabelValuesAt(cfg, st, vals, autoCache, minScore, p);
      } else {
        LabelValuesOutside(cfg, st, vals, autoCache, minScore, p);
      }
    }
    LabelValuesPassive(cfg, st, vals, autoCache, minScore);
  }

  /** One column: a label per cell, in order; each cell's label is what
      detect gives it against the cache before the column, so equal cells
      get equal labels; only qualifying values enter the cache, and only
      when auto-caching; nothing is written. */
  lemma AnnotateColumnFacts(cfg: Config, st: CacheState, ser: seq<string>, autoCache: bool, minScore: Ratio)
    ensures var (labels, s) := AnnotateColumn(cfg, st, ser, autoCache, minScore);
      && |labels| == |ser|
      && (forall i :: 0 <= i < |ser| ==> labels[i] == Detect(cfg, st.entries, Some(ser[i])).lang)
      && (forall i, j :: 0 <= i < |ser| && 0 <= j < |ser| && ser[i] == ser[j] ==> labels[i] == labels[j])
      && s.snapshots == st.snapshots
      && (!autoCache ==> s == st)
      && (forall p :: p in s.entries <==> p in st.entries || (p in ser && Stored(cfg, st, p, autoCache, minScore)))
      && (forall p :: p in s.entries ==>
            s.entries[p] == if p in ser && Stored(cfg, st, p, autoCache, minScore)
                            then Detect(cfg, st.entries, Some(p)).lang else st.entries[p])
  {
    LabelValuesClosedForm(cfg, st, Distinct(ser), autoCache, minScore);
  }

  /** Across the columns: nothing is written to the cache file, the cache
      is untouched without auto-caching, the frame only gains label
      columns, columns that are not label targets keep their cells, and
      only a listed column can be reported missing. */
  lemma {:induction false} AnnotateColumnsFacts(cfg: Config, st: CacheState, df: Frame, cols: seq<string>, autoCache: bool, minScore: Ratio)
    ensures var run := AnnotateColumns(cfg, st, df, cols, autoCache, minScore);
      && run.state.snapshots == st.snapshots
      && (!autoCache ==> run.state == st)
      && df.Keys <= run.frame.Keys <= df.Keys + Targets(cols)
      && (run.missing.None? ==> run.frame.Keys == df.Keys + Targets(cols))
      && (forall c :: c in df && c !in Targets(cols) ==> run.frame[c] == df[c])
      && (run.missing.Some? ==> run.missing.value in cols)
      && ((forall c :: c in cols ==> c in df) ==> run.missing.None?)
  {
    if cols != [] {
      var init := cols[..|cols| - 1];
      var c := cols[|cols| - 1];
      AnnotateColumnsFacts(cfg, st, df, init, autoCache, minScore);
      assert forall x :: x in cols <==> x in init || x == c;
      assert Targets(cols) == Targets(init) + {LangColumn(c)};
      var run := AnnotateColumns(cfg, st, df, init, autoCache, minScore);
      if run.missing.None? && c in run.frame {
        AnnotateColumnFacts(cfg, run.state, run.frame[c], autoCache, minScore);
      }
    }
  }

  /** Across the columns the cache only gains labels detect gives against
      the cache the call started with. */
  lemma {:induction false} AnnotateColumnsAgrees(cfg: Config, st: CacheState, df: Frame, cols: seq<string>,
                                                 autoCache: bool, minScore: Ratio)
    ensures Agrees(cfg, st, AnnotateColumns(cfg, st, df, cols, autoCache, minScore).state)
  {
    if cols != [] {
      AnnotateColumnsAgrees(cfg, st, df, cols[..|cols| - 1], autoCache, minScore);
      var run := AnnotateColumns(cfg, st, df, cols[..|cols| - 1], autoCache, minScore);
      var c := cols[|cols| - 1];
      if run.missing.None? && c in run.frame {
        LabelValuesAgrees(cfg, st, run.state, Distinct(run.frame[c]), autoCache, minScore);
      }
    }
  }

  /** In the final frame, a listed column that is not itself some listed
      column's label target has a label column of its length; each label is
      what detect gives the cell against the cache the call started with, so
      labels agree on equal cells. */
  lemma {:induction false} FrameLabelsConsistent(cfg: Config, st: CacheState, df: Frame, cols: seq<string>, autoCache: bool, minScore: Ratio, c: string)
    requires c in cols && c in df && c !in Targets(cols)
    requires AnnotateColumns(cfg, st, df, cols, autoCache, minScore).missing.None?
    ensures var f := AnnotateColumns(cfg, st, df, cols, autoCache, minScore).frame;
      && LangColumn(c) in f
      && |f[LangColumn(c)]| == |df[c]|
      && (forall i :: 0 <= i < |df[c]| ==> f[LangColumn(c)][i] == Detect(cfg, st.entries, Some(df[c][i])).lang)
      && forall i, j :: 0 <= i < |df[c]| && 0 <= j < |df[c]| && df[c][i] == df[c][j] ==>
           f[LangColumn(c)][i] == f[LangColumn(c)][j]
  {
    var init := cols[..|cols| - 1];
    var d := cols[|cols| - 1];
    assert forall x :: x in cols <==> x in init || x == d;
    var run := AnnotateColumns(cfg, st, df, init, autoCache, minScore);
    AnnotateColumnsFacts(cfg, st, df, init, autoCache, minScore);
    assert Targets(init) <= Targets(cols);
    if d == c {
      AnnotateColumnFacts(cfg, run.state, run.frame[c], autoCache, minScore);
      AnnotateColumnsAgrees(cfg, st, df, init, autoCache, minScore);
      forall i | 0 <= i < |df[c]|
        ensures Detect(cfg, run.state.entries, Some(df[c][i])).lang == Detect(cfg, st.entries, Some(df[c][i])).lang
      {
        AgreesDetect(cfg, st, run.state, df[c][i]);
      }
    } else {
      FrameLabelsConsistent(cfg, st, df, init, autoCache, minScore, c);
      if LangColumn(d) == LangColumn(c) {
        LangColumnInjective(d, c);
      }
    }
  }

  /** annotate_frame writes the cache file at most once, only when
      auto-caching and after every column, and what it writes is the final
      cache; after it nothing is left to flush. */
  lemma AnnotateFrameFlushOnce(cfg: Config, st: CacheState, df: Frame, cols: seq<string>, autoCache: bool, minScore: Ratio)
    ensures var r := AnnotateFrame(cfg, st, df, cols, autoCache, minScore);
      && r.frame == AnnotateColumns(cfg, st, df, cols, autoCache, minScore).frame
      && st.snapshots <= r.state.snapshots
      && |r.state.snapshots| <= |st.snapshots| + 1
      && (|r.state.snapshots| == |st.snapshots| + 1 ==>
            autoCache && r.missing.None? && r.state.snapshots[|st.snapshots|] == r.state.entries)
      && (autoCache && r.missing.None? ==> Settled(cfg, r.state))
      && (!autoCache ==> r.state == st)
  {
    AnnotateColumnsFacts(cfg, st, df, cols, autoCache, minScore);
  }

  /** The empty text scores zero, so it is stored only for a threshold <= 0. */
  lemma EmptyQualifies(cfg: Config, cache: map<string, string>, autoCache: bool, minScore: Ratio)
    ensures Detect(cfg, cache, Some("")) == Detection(cfg.defaultCode, Zero)
    ensures Qualifies(Detect(cfg, cache, Some("")), autoCache, minScore) <==> autoCache && minScore.num <= 0
  {
  }

  /** Across the keys the cache only gains labels detect gives against the
      cache the call started with, so each requested key's label is what
      detect gives record.get(k, "") against that cache. */
  lemma {:induction false} AnnotateKeysLabels(cfg: Config, st: CacheState, record: map<string, string>, keys: seq<string>,
                                              autoCache: bool, minScore: Ratio)
    ensures var run := AnnotateKeys(cfg, st, record, keys, autoCache, minScore);
      && Agrees(cfg, st, run.state)
      && (run.missing.None? ==> forall k :: k in keys ==>
            LangColumn(k) in run.out && run.out[LangColumn(k)] == Detect(cfg, st.entries, Some(GetOrEmpty(record, k))).lang)
  {
    if keys != [] {
      var init := keys[..|keys| - 1];
      var k := keys[|keys| - 1];
      AnnotateKeysLabels(cfg, st, record, init, autoCache, minScore);
      assert forall x :: x in keys <==> x in init || x == k;
      var run := AnnotateKeys(cfg, st, record, init, autoCache, minScore);
      if run.missing.None? {
        AgreesDetect(cfg, st, run.state, GetOrEmpty(record, k));
        AgreesAdd(cfg, st, run.state, GetOrEmpty(record, k));
        forall j | j in init && j != k
          ensures LangColumn(j) != LangColumn(k)
        {
          if LangColumn(j) == LangColumn(k) {
            LangColumnInjective(j, k);
          }
        }
      }
    }
  }

  /** The shape of the key loop's result: what is written, which keys the
      output holds, and when KeyError arises. */
  lemma {:induction false} AnnotateKeysShape(cfg: Config, st: CacheState, record: map<string, string>, keys: seq<string>,
                                             autoCache: bool, minScore: Ratio)
    ensures var run := AnnotateKeys(cfg, st, record, keys, autoCache, minScore);
      && run.state.snapshots == st.snapshots
      && (!autoCache ==> run.state == st)
      && (run.missing.Some? ==>
            run.missing.value in keys && run.missing.value !in record && autoCache && minScore.num <= 0)
      && ((forall k :: k in keys ==> k in record) ==> run.missing.None?)
      && (run.missing.None? ==> run.out.Keys == record.Keys + Targets(keys))
      && (run.missing.None? ==> forall key :: key in record && key !in Targets(keys) ==> run.out[key] == record[key])
  {
    if keys != [] {
      var init := keys[..|keys| - 1];
      var k := keys[|keys| - 1];
      AnnotateKeysShape(cfg, st, record, init, autoCache, minScore);
      assert forall x :: x in keys <==> x in init || x == k;
      assert Targets(keys) == Targets(init) + {LangColumn(k)};
      var run := AnnotateKeys(cfg, st, record, init, autoCache, minScore);
      EmptyQualifies(cfg, run.state.entries, autoCache, minScore);
    }
  }

  /** Across the keys: nothing is written; without auto-caching the cache
      is untouched; KeyError arises only for a requested key absent from
      the record when auto-caching with a threshold <= 0; otherwise the
      output holds every original key, unchanged unless it is a label
      target, plus one label per requested key: what detect gives its value
      against the cache the call started with, the default code for an
      absent one. */
  lemma AnnotateKeysFacts(cfg: Config, st: CacheState, record: map<string, string>, keys: seq<string>,
                          autoCache: bool, minScore: Ratio)
    ensures var run := AnnotateKeys(cfg, st, record, keys, autoCache, minScore);
      && run.state.snapshots == st.snapshots
      && (!autoCache ==> run.state == st)
      && (run.missing.Some? ==>
            run.missing.value in keys && run.missing.value !in record && autoCache && minScore.num <= 0)
      && ((forall k :: k in keys ==> k in record) ==> run.missing.None?)
      && (run.missing.None? ==> run.out.Keys == record.Keys + Targets(keys))
      && (run.missing.None? ==> forall key :: key in record && key !in Targets(keys) ==> run.out[key] == record[key])
      && (run.missing.None? ==> forall k :: k in keys ==>
            run.out[LangColumn(k)] == Detect(cfg, st.entries, Some(GetOrEmpty(record, k))).lang)
      && (run.missing.None? ==> forall k :: k in keys && k !in record ==> run.out[LangColumn(k)] == cfg.defaultCode)
  {
    AnnotateKeysShape(cfg, st, record, keys, autoCache, minScore);
    AnnotateKeysLabels(cfg, st, record, keys, autoCache, minScore);
  }

  /** annotate_json writes the cache file at most once, only when
      auto-caching and after every key, and what it writes is the final
      cache. */
  lemma AnnotateJsonFlushOnce(cfg: Config, st: CacheState, record: map<string, string>, keys: seq<string>,
                              autoCache: bool, minScore: Ratio)
    ensures var r := AnnotateJson(cfg, st, record, keys, autoCache, minScore);
      && r.out == AnnotateKeys(cfg, st, record, keys, autoCache, minScore).out
      && st.snapshots <= r.state.snapshots
      && |r.state.snapshots| <= |st.snapshots| + 1
      && (|r.state.snapshots| == |st.snapshots| + 1 ==>
            autoCache && r.missing.None? && r.state.snapshots[|st.snapshots|] == r.state.entries)
      && (autoCache && r.missing.None? ==> Settled(cfg, r.state))
      && (!autoCache ==> r.state == st && r.missing.None?)
  {
    AnnotateKeysFacts(cfg, st, record, keys, autoCache, minScore);
  }

  /** Once a column is missing, later columns change nothing. */
  lemma {:induction false} MissingColumnSticks(cfg: Config, st: CacheState, df: Frame, cols: seq<string>, j: nat,
                                               autoCache: bool, minScore: Ratio)
    requires j <= |cols|
    requires AnnotateColumns(cfg, st, df, cols[..j], autoCache, minScore).missing.Some?
    ensures AnnotateColumns(cfg, st, df, cols, autoCache, minScore) == AnnotateColumns(cfg, st, df, cols[..j], autoCache, minScore)
  {
    if j < |cols| {
      assert cols[..|cols| - 1][..j] == cols[..j];
      MissingColumnSticks(cfg, st, df, cols[..|cols| - 1], j, autoCache, minScore);
    } else {
      assert cols[..j] == cols;
    }
  }

  /** Once a key raised KeyError, later keys change nothing. */
  lemma {:induction false} MissingKeySticks(cfg: Config, st: CacheState, record: map<string, string>, keys: seq<string>, j: nat,
                                            autoCache: bool, minScore: Ratio)
    requires j <= |keys|
    requires AnnotateKeys(cfg, st, record, keys[..j], autoCache, minScore).missing.Some?
    ensures AnnotateKeys(cfg, st, record, keys, autoCache, minScore) == AnnotateKeys(cfg, st, record, keys[..j], autoCache, minScore)
  {
    if j < |keys| {
      assert keys[..|keys| - 1][..j] == keys[..j];
      MissingKeySticks(cfg, st, record, keys[..|keys| - 1], j, autoCache, minScore);
    } else {
      assert keys[..j] == keys;
    }
  }
}
