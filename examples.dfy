/** Worked instances of detect. */
module DetectExamples {
  import opened Ranges
  import opened Classify

  const Default: Config := Config(6, "en", false)

  /** An ASCII name: every inspected character is "en". */
  lemma AsciiName()
    ensures Detect(Default, map[], Some("Ramesh")) == Detection("en", Score(6, 6))
  {
    var t := "Ramesh";
    SignificantAll(t);
    var p := Inspected(t, 6);
    assert p == Significant(t);
    forall k | 0 <= k < |p|
      ensures Resolves(p[k], "en")
    {
      Latin1IsEnglish(p[k]);
    }
    ScanUniform(p, "en", "en");
  }

  /** Six Devanagari code points. */
  lemma DevanagariWord()
    ensures Detect(Default, map[], Some("नमस्ते")) == Detection("hi", Score(6, 6))
  {
    var t := "नमस्ते";
    SignificantAll(t);
    var p := Inspected(t, 6);
    assert p == Significant(t);
    forall k | 0 <= k < |p|
      ensures Resolves(p[k], "hi")
    {
      RowIntervals(0, p[k]);
      CharLangExact(p[k], "hi");
    }
    ScanUniform(p, "hi", "en");
  }

  /** Three ASCII then three Devanagari: a 3-3 tie, won by the language
      seen first ("en"), although "hi" comes first in the table. */
  lemma MixedTieGoesToFirstSeen()
    ensures Detect(Default, map[], Some("abcनमस")) == Detection("en", Score(3, 6))
  {
    var t := "abcनमस";
    SignificantAll(t);
    var p := Inspected(t, 6);
    assert p == Significant(t);
    assert p == [0x61, 0x62, 0x63, 0x0928, 0x092E, 0x0938];
    ThreeAndThree(p);
  }

  lemma ThreeAndThree(p: seq<int>)
    requires p == [0x61, 0x62, 0x63, 0x0928, 0x092E, 0x0938]
    ensures Scan(p, "en") == Detection("en", Score(3, 6))
  {
    var en, hi := p[..3], p[3..];
    assert p == en + hi;
    forall k | 0 <= k < 3
      ensures Resolves(en[k], "en")
    {
      Latin1IsEnglish(en[k]);
    }
    forall k | 0 <= k < 3
      ensures Resolves(hi[k], "hi")
    {
      RowIntervals(0, hi[k]);
      CharLangExact(hi[k], "hi");
    }
    CountConcat(en, hi, "en");
    CountConcat(en, hi, "hi");
    CountFull(en, "en");
    CountZero(en, "hi");
    CountFull(hi, "hi");
    CountZero(hi, "en");
    assert Count(p, "en") == 3 && Count(p, "hi") == 3;
    ScanNothingResolved(p, "en");
    ScanWinner(p, "en");
    var w := Scan(p, "en").lang;
    CountZero(p, w);
    var k :| 0 <= k < |p| && Resolves(p[k], w);
    if k < 3 {
      assert p[k] == en[k];
    } else {
      assert p[k] == hi[k - 3];
    }
    if w == "hi" {
      ScanTieBreak(p, "en", "en");
    }
  }

  /** A cached word answers with score 1 whatever its characters. */
  lemma CacheShortCircuit()
    ensures Detect(Default, map["Ramesh" := "hi"], Some("Ramesh")) == Detection("hi", One)
  {
  }

  /** Digits and punctuation are inside the "en" ranges, so they resolve. */
  lemma DigitsAreEnglish()
    ensures Detect(Default, map[], Some("12-34")) == Detection("en", Score(5, 5))
  {
    var t := "12-34";
    SignificantAll(t);
    var p := Inspected(t, 6);
    assert p == Significant(t);
    forall k | 0 <= k < |p|
      ensures Resolves(p[k], "en")
    {
      Latin1IsEnglish(p[k]);
    }
    ScanUniform(p, "en", "en");
  }
}
