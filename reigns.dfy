/** The hard-coded reign-period table (timeline_enhanced.py:243-249) and the
    first-match lookup of the selected year in it (lines 309-313). */
module Reigns {

  /** One reign period: its name, its display label, the years `[start, end)`
      that the lookup tests, and the colour of its band on the timeline. */
  datatype Era = Era(name: string, period: string, start: int, end: int, color: string)

  /** The table in the order of the source dict. The last entry's label reads
      1908-1912 while its interval is [1909, 1911). */
  const Eras: seq<Era> := [
    Era("道光", "1821-1850", 1821, 1850, "#C8E6C9"),
    Era("咸丰", "1851-1861", 1851, 1861, "#BBDEFB"),
    Era("同治", "1862-1874", 1862, 1874, "#FFECB3"),
    Era("光绪", "1875-1908", 1875, 1908, "#FFCCBC"),
    Era("宣统", "1908-1912", 1909, 1911, "#E1BEE7")
  ]

  /** The membership test of line 311. */
  predicate Contains(e: Era, year: int) {
    e.start <= year && year < e.end
  }

  /** The name of the first era, in table order, that contains `year`; '' if none does. */
  function ReignOf(eras: seq<Era>, year: int): (r: string)
    ensures r == "" || exists k :: 0 <= k < |eras| && Contains(eras[k], year) && r == eras[k].name
  {
    if eras == [] then ""
    else if Contains(eras[0], year) then eras[0].name
    else
      var r := ReignOf(eras[1..], year);
      assert r != "" ==> exists k :: 0 <= k < |eras| && Contains(eras[k], year) && r == eras[k].name by {
        if r != "" {
          var k :| 0 <= k < |eras[1..]| && Contains(eras[1..][k], year) && r == eras[1..][k].name;
          assert eras[k + 1] == eras[1..][k];
        }
      }
      r
  }

  /** Lines 309-313: the scan that stops at the first era containing the year. */
  method CurrentReign(eras: seq<Era>, year: int) returns (reign: string)
    ensures reign == ReignOf(eras, year)
  {
    reign := "";
    var i := 0;
    while i < |eras|
      invariant 0 <= i <= |eras|
      invariant ReignOf(eras, year) == ReignOf(eras[i..], year)
    {
      assert eras[i..][1..] == eras[i + 1..];
      if Contains(eras[i], year) {
        reign := eras[i].name;
        break;
      }
      i := i + 1;
    }
  }

  /** The lookup answers the first era that contains the year. */
  lemma {:induction false} ReignOfFirstMatch(eras: seq<Era>, year: int, i: nat)
    requires i < |eras| && Contains(eras[i], year)
    requires forall k :: 0 <= k < i ==> !Contains(eras[k], year)
    ensures ReignOf(eras, year) == eras[i].name
  {
    if i > 0 {
      ReignOfFirstMatch(eras[1..], year, i - 1);
    }
  }

  /** The lookup answers '' when no era contains the year. */
  lemma {:induction false} ReignOfNoMatch(eras: seq<Era>, year: int)
    requires forall k :: 0 <= k < |eras| ==> !Contains(eras[k], year)
    ensures ReignOf(eras, year) == ""
  {
    if eras != [] {
      ReignOfNoMatch(eras[1..], year);
    }
  }

  /** A non-empty answer is the name of an era that contains the year. */
  lemma {:induction false} ReignOfSound(eras: seq<Era>, year: int)
    requires forall k :: 0 <= k < |eras| ==> eras[k].name != ""
    ensures ReignOf(eras, year) != "" <==> exists k :: 0 <= k < |eras| && Contains(eras[k], year)
    ensures ReignOf(eras, year) != "" ==> exists k :: 0 <= k < |eras| && Contains(eras[k], year) && ReignOf(eras, year) == eras[k].name
  {
    if eras != [] && !Contains(eras[0], year) {
      ReignOfSound(eras[1..], year);
      if exists k :: 0 <= k < |eras| && Contains(eras[k], year) {
        var k :| 0 <= k < |eras| && Contains(eras[k], year);
        assert eras[1..][k - 1] == eras[k];
      }
      if ReignOf(eras, year) != "" {
        var k :| 0 <= k < |eras[1..]| && Contains(eras[1..][k], year) && ReignOf(eras[1..], year) == eras[1..][k].name;
        assert eras[k + 1] == eras[1..][k];
      }
    }
  }

  /** The intervals of the table are increasing and pairwise disjoint, so at
      most one era contains any year. */
  lemma {:induction false} ErasDisjoint(year: int)
    ensures forall i, j :: 0 <= i < j < |Eras| ==> Eras[i].end <= Eras[j].start
    ensures forall i, j :: 0 <= i < |Eras| && 0 <= j < |Eras| && Contains(Eras[i], year) && Contains(Eras[j], year) ==> i == j
  {
  }

  /** The lookup over the hard-coded table, year by year. */
  lemma {:induction false} ReignTable(year: int)
    ensures ReignOf(Eras, year) ==
      if 1821 <= year < 1850 then "道光"
      else if 1851 <= year < 1861 then "咸丰"
      else if 1862 <= year < 1874 then "同治"
      else if 1875 <= year < 1908 then "光绪"
      else if 1909 <= year < 1911 then "宣统"
      else ""
  {
    if 1821 <= year < 1850 {
      ReignOfFirstMatch(Eras, year, 0);
    } else if 1851 <= year < 1861 {
      ReignOfFirstMatch(Eras, year, 1);
    } else if 1862 <= year < 1874 {
      ReignOfFirstMatch(Eras, year, 2);
    } else if 1875 <= year < 1908 {
      ReignOfFirstMatch(Eras, year, 3);
    } else if 1909 <= year < 1911 {
      ReignOfFirstMatch(Eras, year, 4);
    } else {
      ReignOfNoMatch(Eras, year);
    }
  }

  /** The years between two intervals, and the last year of the table, belong to no era. */
  lemma {:induction false} GapYears()
    ensures ReignOf(Eras, 1850) == "" && ReignOf(Eras, 1861) == "" && ReignOf(Eras, 1874) == ""
    ensures ReignOf(Eras, 1908) == "" && ReignOf(Eras, 1911) == ""
    ensures ReignOf(Eras, 1898) == "光绪"
  {
    ReignTable(1850);
    ReignTable(1861);
    ReignTable(1874);
    ReignTable(1908);
    ReignTable(1911);
    ReignTable(1898);
  }
}
