/** ScriptDetector: the cache-aware detector object. Its fields are the
    settings, the in-memory cache and the dirty flag; each method is proved
    to compute what the functions of module Classify say. */
module Detector {
  import opened Ranges
  import opened Classify

  class ScriptDetector {
    const sampleChars: int
    const defaultCode: string
    /** Whether cache_file is set: flushing has somewhere to write. */
    const hasCacheFile: bool

    var cache: map<string, string>
    var dirty: bool
    /** Every map written to the cache file, oldest first. */
    ghost var snapshots: seq<map<string, string>>

    function Cfg(): Config {
      Config(sampleChars, defaultCode, hasCacheFile)
    }

    ghost function State(): CacheState
      reads this
    {
      CacheState(cache, dirty, snapshots)
    }

    /** Construction starts from the map loaded from the cache file (empty
        when no file is set, when it does not exist or when it is not valid
        JSON), with nothing to flush. */
    constructor (sampleChars: int, defaultCode: string, hasCacheFile: bool, loaded: map<string, string>)
      requires !hasCacheFile ==> loaded == map[]
      ensures Cfg() == Config(sampleChars, defaultCode, hasCacheFile)
      ensures State() == CacheState(loaded, false, [])
    {
      this.sampleChars := sampleChars;
      this.defaultCode := defaultCode;
      this.hasCacheFile := hasCacheFile;
      cache := loaded;
      dirty := false;
      snapshots := [];
    }

    /** detect: the language of text and its score. */
    method Detect(text: Option<string>) returns (lang: string, score: Score)
      ensures Detection(lang, score) == Classify.Detect(Cfg(), cache, text)
    {
      if text.None? || text.value == [] {
        return defaultCode, Zero;
      }
      var t := text.value;
      if t in cache && cache[t] != [] {
        return cache[t], One;
      }
      var keys, counts, total := CountScripts(t, sampleChars);
      if keys == [] {
        return defaultCode, Zero;
      }
      var winner := MaxKey(keys, counts);
      FirstSeenKeys(Inspected(t, sampleChars));
      return winner, Score(counts[winner], total);
    }

    /** _add_to_cache: store one entry and mark the cache dirty. */
    method AddToCache(phrase: string, lang: string)
      modifies this
      ensures State() == AddEntry(old(State()), phrase, lang)
    {
      cache := cache[phrase := lang];
      dirty := true;
    }

    /** _flush_cache: write the whole map (recorded in snapshots) when dirty
        and a cache file is set, then clear dirty. */
    method FlushCache()
      modifies this
      ensures State() == Flush(Cfg(), old(State()))
    {
      if dirty && hasCacheFile {
        snapshots := snapshots + [cache];
        dirty := false;
      }
    }

    /** annotate_frame: label every listed column, detecting each distinct
        value once, then flush once when auto-caching. A missing column
        stops the loop as pandas' KeyError does, after the earlier columns
        were added to the frame, and nothing is flushed. */
    method AnnotateFrame(df: Frame, columns: seq<string>, autoCache: bool, minCacheScore: Ratio)
      returns (out: Frame, missing: Option<string>)
      modifies this
      ensures FrameRun(out, State(), missing) ==
        Classify.AnnotateFrame(Cfg(), old(State()), df, columns, autoCache, minCacheScore)
    {
      out, missing := df, None;
      var j := 0;
      while j < |columns|
        invariant 0 <= j <= |columns|
        invariant missing.None?
        invariant FrameRun(out, State(), missing) ==
          AnnotateColumns(Cfg(), old(State()), df, columns[..j], autoCache, minCacheScore)
      {
        var col := columns[j];
        assert columns[..j + 1][..j] == columns[..j];
        if col !in out {
          missing := Some(col);
          MissingColumnSticks(Cfg(), old(State()), df, columns, j + 1, autoCache, minCacheScore);
          return;
        }
        var labels := LabelColumn(out[col], autoCache, minCacheScore);
        out := out[LangColumn(col) := labels];
        j := j + 1;
      }
      assert columns[..j] == columns;
      if autoCache {
        FlushCache();
      }
    }

    /** The body of annotate_frame's column loop: detect each distinct
        value once, auto-cache the qualifying ones, and broadcast the
        labels back over the column. */
    method LabelColumn(ser: seq<string>, autoCache: bool, minCacheScore: Ratio) returns (labels: seq<string>)
      modifies this
      ensures (labels, State()) == AnnotateColumn(Cfg(), old(State()), ser, autoCache, minCacheScore)
    {
      var uniques := Distinct(ser);
      var langMap: map<string, string> := map[];
      var u := 0;
      while u < |uniques|
        invariant 0 <= u <= |uniques|
        invariant (langMap, State()) == LabelValues(Cfg(), old(State()), uniques[..u], autoCache, minCacheScore)
      {
        var val := uniques[u];
        assert uniques[..u + 1][..u] == uniques[..u];
        var lang, score := Detect(Some(val));
        langMap := langMap[val := lang];
        if autoCache && AtLeast(score, minCacheScore) {
          AddToCache(val, lang);
        }
        u := u + 1;
      }
      assert uniques[..u] == uniques;
      LabelValuesKeys(Cfg(), old(State()), uniques, autoCache, minCacheScore);
      labels := Broadcast(ser, langMap);
    }

    /** annotate_json: a copy of the record plus one label per requested
        key, then one flush when auto-caching. A missing key is classified
        as the empty text; caching it raises KeyError (reported in
        missing), and then nothing is flushed. */
    method AnnotateJson(record: map<string, string>, keys: seq<string>, autoCache: bool, minCacheScore: Ratio)
      returns (out: map<string, string>, missing: Option<string>)
      modifies this
      ensures RecordRun(out, State(), missing) ==
        Classify.AnnotateJson(Cfg(), old(State()), record, keys, autoCache, minCacheScore)
    {
      out, missing := record, None;
      for j := 0 to |keys|
        invariant missing.None?
        invariant RecordRun(out, State(), missing) ==
          AnnotateKeys(Cfg(), old(State()), record, keys[..j], autoCache, minCacheScore)
      {
        var k := keys[j];
        assert keys[..j + 1][..j] == keys[..j];
        var lang, score := Detect(Some(GetOrEmpty(record, k)));
        if autoCache && AtLeast(score, minCacheScore) {
          if k !in record {
            missing := Some(k);
            MissingKeySticks(Cfg(), old(State()), record, keys, j + 1, autoCache, minCacheScore);
            return;
          }
          AddToCache(record[k], lang);
        }
        out := out[LangColumn(k) := lang];
      }
      assert keys[..|keys|] == keys;
      if autoCache {
        FlushCache();
      }
    }
  }

  /** max(keys, key=counts.get): scan the keys in order, replacing the
      best only by a strictly larger count. */
  method MaxKey(keys: seq<string>, counts: map<string, nat>) returns (w: string)
    requires |keys| > 0 && forall k :: k in keys ==> k in counts
    ensures w == MaxFirst(keys, counts)
  {
    w := keys[0];
    var j := 1;
    while j < |keys|
      invariant 1 <= j <= |keys|
      invariant w == MaxFirst(keys[..j], counts)
    {
      MaxFirstStep(keys, j, counts);
      if counts[keys[j]] > counts[w] {
        w := keys[j];
      }
      j := j + 1;
    }
    assert keys[..j] == keys;
  }

  /** The counting loop of detect: walk the code points of t, skip the
      insignificant ones, count each resolved language (the keys in
      insertion order), and stop once max(sampleChars, 1) code points have
      been inspected; the break test follows the increment. */
  method CountScripts(t: string, sampleChars: int) returns (keys: seq<string>, counts: map<string, nat>, total: nat)
    ensures Tallies(counts, keys, Inspected(t, sampleChars))
    ensures total == |Inspected(t, sampleChars)|
  {
    keys, counts, total := [], map[], 0;
    var i := 0;
    var stop := false;
    while i < |t| && !stop
      invariant 0 <= i <= |t|
      invariant total == |Significant(t[..i])|
      invariant stop ==> total == Cap(sampleChars)
      invariant !stop ==> total < Cap(sampleChars)
      invariant Tallies(counts, keys, Significant(t[..i]))
    {
      ghost var before := Significant(t[..i]);
      SignificantStep(t, i);
      var cp := t[i] as int;
      if IsSignificant(cp) {
        TallyStep(counts, keys, before, cp);
        total := total + 1;
        var l := CharLang(cp);
        if l.Some? {
          if l.value in counts {
            counts := counts[l.value := counts[l.value] + 1];
          } else {
            counts := counts[l.value := 1];
            keys := keys + [l.value];
          }
        }
        if total >= sampleChars {
          stop := true;
        }
      } else {
        assert Significant(t[..i + 1]) == before;
      }
      i := i + 1;
    }
    ScanStopsAtCap(t, i, sampleChars);
  }
}
