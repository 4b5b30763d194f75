/** The static Unicode-block table, the per-code-point lookup and the
    filter that picks the significant code points of a token. */
module Ranges {

  datatype Option<T> = None | Some(value: T)

  /** A half-open interval [start, stop) of code points, as Python's range. */
  datatype Interval = Interval(start: int, stop: int)

  /** One row of the table: a language code and its intervals, in order. */
  datatype Entry = Entry(lang: string, ranges: seq<Interval>)

  predicate Contains(r: Interval, cp: int) {
    r.start <= cp < r.stop
  }

  /** The table in its declared order; that order is the scan order. */
  const UnicodeRanges: seq<Entry> := [
    Entry("hi", [Interval(0x0900, 0x0980)]),
    Entry("gu", [Interval(0x0A80, 0x0B00)]),
    Entry("pa", [Interval(0x0A00, 0x0A80)]),
    Entry("bn", [Interval(0x0980, 0x0A00)]),
    Entry("or", [Interval(0x0B00, 0x0B80)]),
    Entry("tam", [Interval(0x0B80, 0x0C00)]),
    Entry("te", [Interval(0x0C00, 0x0C80)]),
    Entry("kn", [Interval(0x0C80, 0x0D00)]),
    Entry("ml", [Interval(0x0D00, 0x0D80)]),
    Entry("ur", [Interval(0x0600, 0x0700), Interval(0x0750, 0x0780)]),
    Entry("en", [Interval(0x0000, 0x0080), Interval(0x0080, 0x0100)])
  ]

  /** Ordinals of Python's string.printable: digits, letters, punctuation,
      the space and the five whitespace controls 0x09..0x0D. */
  predicate InAscii(cp: int) {
    0x09 <= cp <= 0x0D || 0x20 <= cp <= 0x7E
  }

  /** Whether some interval of the list contains cp (the inner loop). */
  predicate InAny(ranges: seq<Interval>, cp: int) {
    ranges != [] && (Contains(ranges[0], cp) || InAny(ranges[1..], cp))
  }

  /** First-match scan of a table in its order (the outer loop). */
  function LookupIn(table: seq<Entry>, cp: int): Option<string> {
    if table == [] then None
    else if InAny(table[0].ranges, cp) then Some(table[0].lang)
    else LookupIn(table[1..], cp)
  }

  /** The language of one code point: the printable-ASCII fast path, then
      the table scan; None when no interval holds the code point. */
  function CharLang(cp: int): Option<string> {
    if InAscii(cp) then Some("en") else LookupIn(UnicodeRanges, cp)
  }

  /** cp lies in one of the intervals the table declares for lang. */
  ghost predicate Covers(table: seq<Entry>, lang: string, cp: int) {
    exists i :: 0 <= i < |table| && table[i].lang == lang && InAny(table[i].ranges, cp)
  }

  /** No code point lies in the intervals of two different rows. */
  ghost predicate Disjoint(table: seq<Entry>) {
    forall i, j, cp :: 0 <= i < j < |table| && InAny(table[i].ranges, cp) ==> !InAny(table[j].ranges, cp)
  }

  lemma {:induction false} InAnyExists(ranges: seq<Interval>, cp: int)
    ensures InAny(ranges, cp) <==> exists k :: 0 <= k < |ranges| && Contains(ranges[k], cp)
  {
    if ranges != [] {
      InAnyExists(ranges[1..], cp);
      if InAny(ranges[1..], cp) {
        var k :| 0 <= k < |ranges[1..]| && Contains(ranges[1..][k], cp);
        assert Contains(ranges[k + 1], cp);
      }
      forall k | 0 < k < |ranges| && Contains(ranges[k], cp)
        ensures InAny(ranges[1..], cp)
      {
        assert ranges[1..][k - 1] == ranges[k];
      }
    }
  }

  /** A Some answer of the scan is always a row that covers cp, and None
      means no row does; both hold whatever the table. */
  lemma {:induction false} LookupInSound(table: seq<Entry>, cp: int)
    ensures LookupIn(table, cp).Some? ==> Covers(table, LookupIn(table, cp).value, cp)
    ensures LookupIn(table, cp).None? <==> forall i :: 0 <= i < |table| ==> !InAny(table[i].ranges, cp)
  {
    if table != [] && !InAny(table[0].ranges, cp) {
      LookupInSound(table[1..], cp);
      if LookupIn(table, cp).Some? {
        var i :| 0 <= i < |table[1..]| && table[1..][i].lang == LookupIn(table, cp).value
          && InAny(table[1..][i].ranges, cp);
        assert table[i + 1] == table[1..][i];
      }
      forall i | 0 < i < |table|
        ensures table[i] == table[1..][i - 1]
      {
      }
    }
  }

  /** On a table whose rows are disjoint, the scan finds the covering row. */
  lemma {:induction false} LookupInComplete(table: seq<Entry>, i: nat, cp: int)
    requires Disjoint(table)
    requires i < |table| && InAny(table[i].ranges, cp)
    ensures LookupIn(table, cp) == Some(table[i].lang)
  {
    if i > 0 {
      assert !InAny(table[0].ranges, cp);
      var rest := table[1..];
      assert rest[i - 1] == table[i];
      forall a, b, c | 0 <= a < b < |rest| && InAny(rest[a].ranges, c)
        ensures !InAny(rest[b].ranges, c)
      {
        assert rest[a] == table[a + 1] && rest[b] == table[b + 1];
      }
      LookupInComplete(rest, i - 1, cp);
    }
  }

  /** The intervals of row i of the declared table, written out. */
  predicate InRow(i: nat, cp: int) {
    match i
    case 0 => 0x0900 <= cp < 0x0980
    case 1 => 0x0A80 <= cp < 0x0B00
    case 2 => 0x0A00 <= cp < 0x0A80
    case 3 => 0x0980 <= cp < 0x0A00
    case 4 => 0x0B00 <= cp < 0x0B80
    case 5 => 0x0B80 <= cp < 0x0C00
    case 6 => 0x0C00 <= cp < 0x0C80
    case 7 => 0x0C80 <= cp < 0x0D00
    case 8 => 0x0D00 <= cp < 0x0D80
    case 9 => 0x0600 <= cp < 0x0700 || 0x0750 <= cp < 0x0780
    case 10 => 0x0000 <= cp < 0x0100
    case _ => false
  }

  lemma RowIntervals(i: nat, cp: int)
    requires i < |UnicodeRanges|
    ensures InAny(UnicodeRanges[i].ranges, cp) <==> InRow(i, cp)
  {
    var rs := UnicodeRanges[i].ranges;
    assert InAny(rs, cp) <==> Contains(rs[0], cp) || InAny(rs[1..], cp);
    if |rs| == 1 {
      assert rs[1..] == [];
    } else {
      assert |rs| == 2 && rs[1..][1..] == [];
      assert InAny(rs[1..], cp) <==> Contains(rs[1], cp);
    }
  }

  /** The declared intervals of different rows never overlap. */
  lemma TableDisjoint()
    ensures Disjoint(UnicodeRanges)
  {
    forall i, j, cp | 0 <= i < j < |UnicodeRanges| && InAny(UnicodeRanges[i].ranges, cp)
      ensures !InAny(UnicodeRanges[j].ranges, cp)
    {
      RowIntervals(i, cp);
      RowIntervals(j, cp);
    }
  }

  /** The printable-ASCII fast path never disagrees with the table. */
  lemma FastPathAgrees(cp: int)
    requires InAscii(cp)
    ensures LookupIn(UnicodeRanges, cp) == Some("en")
  {
    TableDisjoint();
    RowIntervals(10, cp);
    LookupInComplete(UnicodeRanges, 10, cp);
  }

  /** CharLang answers lang exactly on the intervals the table declares for
      lang: the fast path and the first-match order never change the answer. */
  lemma CharLangExact(cp: int, lang: string)
    ensures CharLang(cp) == Some(lang) <==> Covers(UnicodeRanges, lang, cp)
  {
    TableDisjoint();
    LookupInSound(UnicodeRanges, cp);
    if InAscii(cp) {
      FastPathAgrees(cp);
    }
    if Covers(UnicodeRanges, lang, cp) {
      var i :| 0 <= i < |UnicodeRanges| && UnicodeRanges[i].lang == lang
        && InAny(UnicodeRanges[i].ranges, cp);
      LookupInComplete(UnicodeRanges, i, cp);
    }
  }

  /** CharLang is None exactly outside every declared interval. */
  lemma CharLangNone(cp: int)
    ensures CharLang(cp).None? <==> forall i :: 0 <= i < |UnicodeRanges| ==> !InAny(UnicodeRanges[i].ranges, cp)
  {
    LookupInSound(UnicodeRanges, cp);
    if InAscii(cp) {
      RowIntervals(10, cp);
    }
  }

  /** The same, with the blocks written out: only ASCII and Latin-1, the two
      Arabic blocks and 0x0900..0x0D7F resolve. */
  lemma CharLangNoneBlocks(cp: int)
    ensures CharLang(cp).None? <==>
      !(0 <= cp < 0x0100 || 0x0600 <= cp < 0x0700 || 0x0750 <= cp < 0x0780 || 0x0900 <= cp < 0x0D80)
  {
    CharLangNone(cp);
    forall i | 0 <= i < |UnicodeRanges| {
      RowIntervals(i, cp);
    }
    var r := if 0 <= cp < 0x0100 then 10
      else if 0x0600 <= cp < 0x0780 then 9
      else if cp < 0x0980 then 0
      else if cp < 0x0A00 then 3
      else if cp < 0x0A80 then 2
      else if cp < 0x0B00 then 1
      else if cp < 0x0B80 then 4
      else if cp < 0x0C00 then 5
      else if cp < 0x0C80 then 6
      else if cp < 0x0D00 then 7
      else 8;
    RowIntervals(r, cp);
  }

  /** Every code point below 0x100 (ASCII and Latin-1, printable or not,
      digits and punctuation included) resolves to "en". */
  lemma Latin1IsEnglish(cp: int)
    requires 0 <= cp < 0x0100
    ensures CharLang(cp) == Some("en")
  {
    RowIntervals(10, cp);
    CharLangExact(cp, "en");
  }

  // ---------------------------------------------------------------------
  // Significant code points
  // ---------------------------------------------------------------------

  /** Spaces, controls (<= 0x20) and the band 0x2000..0x200F are skipped. */
  predicate IsSignificant(cp: int) {
    !(cp <= 0x0020 || 0x2000 <= cp <= 0x200F)
  }

  /** The code points of s that are significant, in their original order. */
  function Significant(s: string): seq<int> {
    if s == [] then []
    else
      var cp := s[|s| - 1] as int;
      Significant(s[..|s| - 1]) + if IsSignificant(cp) then [cp] else []
  }

  /** The filter of one character keeps it exactly when it is significant. */
  lemma SignificantSingle(c: char)
    ensures Significant([c]) == if IsSignificant(c as int) then [c as int] else []
  {
    assert [c][..0] == [];
  }

  /** The filter distributes over concatenation; with SignificantSingle
      this determines it completely. */
  lemma {:induction false} SignificantConcat(a: string, b: string)
    ensures Significant(a + b) == Significant(a) + Significant(b)
  {
    if b == [] {
      assert a + b == a;
    } else {
      var b' := b[..|b| - 1];
      assert (a + b)[..|a + b| - 1] == a + b';
      SignificantConcat(a, b');
    }
  }

  /** Every code point kept is significant, and no code point is invented. */
  lemma {:induction false} SignificantElements(s: string)
    ensures |Significant(s)| <= |s|
    ensures forall k :: 0 <= k < |Significant(s)| ==> IsSignificant(Significant(s)[k])
    ensures forall k :: 0 <= k < |Significant(s)| ==> exists j :: 0 <= j < |s| && s[j] as int == Significant(s)[k]
  {
    if s != [] {
      var s' := s[..|s| - 1];
      SignificantElements(s');
      forall k | 0 <= k < |Significant(s)|
        ensures exists j :: 0 <= j < |s| && s[j] as int == Significant(s)[k]
      {
        if k < |Significant(s')| {
          var j :| 0 <= j < |s'| && s'[j] as int == Significant(s')[k];
          assert s[j] == s'[j];
        } else {
          assert s[|s| - 1] as int == Significant(s)[k];
        }
      }
    }
  }

  /** Filtering a prefix of s gives a prefix of the filtered s. */
  lemma SignificantPrefix(s: string, i: nat)
    requires i <= |s|
    ensures Significant(s[..i]) <= Significant(s)
  {
    assert s == s[..i] + s[i..];
    SignificantConcat(s[..i], s[i..]);
  }

  /** A string with no skipped code point is kept whole. */
  lemma {:induction false} SignificantAll(s: string)
    requires forall k :: 0 <= k < |s| ==> IsSignificant(s[k] as int)
    ensures Significant(s) == seq(|s|, k requires 0 <= k < |s| => s[k] as int)
  {
    if s != [] {
      SignificantAll(s[..|s| - 1]);
    }
  }
}
