/** Grid sizing: the side length of the square letter grid, chosen from the
    canonical word list before anything is placed. */
module Sizing {

  /** Length of the longest word; 0 for an empty list. */
  function Longest(words: seq<string>): (l: nat)
    ensures forall w :: w in words ==> |w| <= l
    ensures words != [] ==> exists w :: w in words && |w| == l
    ensures words == [] ==> l == 0
  {
    if words == [] then 0
    else
      var rest := Longest(words[1..]);
      assert forall w :: w in words ==> w == words[0] || w in words[1..];
      if |words[0]| >= rest then |words[0]| else rest
  }

  /** The smallest r whose square is at least n: the integer form of
      Math.ceil(Math.sqrt(n)) for a natural n. */
  function CeilSqrt(n: nat): (r: nat)
    ensures r * r >= n
    ensures r == 0 || (r - 1) * (r - 1) < n
  {
    CeilSqrtFrom(n, 0)
  }

  /** Searches upward from r, which is known not to overshoot. */
  function CeilSqrtFrom(n: nat, r: nat): (s: nat)
    requires r == 0 || (r - 1) * (r - 1) < n
    ensures s * s >= n
    ensures s == 0 || (s - 1) * (s - 1) < n
    decreases n - r
  {
    if r * r >= n then r
    else
      assert r <= r * r;
      CeilSqrtFrom(n, r + 1)
  }

  /** The two postconditions of CeilSqrt pin its result down. */
  lemma CeilSqrtIs(n: nat, r: nat)
    requires r * r >= n
    requires r == 0 || (r - 1) * (r - 1) < n
    ensures CeilSqrt(n) == r
  {
    var s := CeilSqrt(n);
    if s < r {
      MulMono(s, r - 1);
    } else if s > r {
      MulMono(r, s - 1);
    }
  }

  lemma MulMono(a: nat, b: nat)
    requires a <= b
    ensures a * a <= b * b
  {
    assert a * a <= a * b <= b * b;
  }

  function Max(a: int, b: int): int { if a >= b then a else b }

  function Min(a: int, b: int): int { if a <= b then a else b }

  const MinSize: int := 12
  const MaxSize: int := 20

  /** calculateOptimalGridSize: at least 12 and at least two more than the
      longest word, grown by the square root of twice the word count, and
      never more than 20. For an empty list the source's Math.max() is
      -Infinity, which leaves every candidate but 12 behind. */
  function GridSize(words: seq<string>): (size: int)
    ensures MinSize <= size <= MaxSize
    ensures size >= Min(MaxSize, Longest(words) + 2)
    ensures size >= Min(MaxSize, CeilSqrt(2 * |words|) + Longest(words))
    ensures size <= Max(MinSize, Max(Longest(words) + 2, CeilSqrt(2 * |words|) + Longest(words)))
    ensures size == MaxSize || size == MinSize || size == Longest(words) + 2
            || size == CeilSqrt(2 * |words|) + Longest(words)
    ensures words == [] ==> size == MinSize
  {
    if words == [] then MinSize
    else
      var longest := Longest(words);
      var minSize := Max(MinSize, longest + 2);
      var wordCountFactor := CeilSqrt(|words| * 2);
      Min(MaxSize, Max(minSize, wordCountFactor + longest))
  }

  /** When no word is longer than 18 letters, the grid leaves a margin of
      two cells beyond the longest word, so every word fits in every row,
      column and diagonal of full length. */
  lemma EveryWordFits(words: seq<string>, w: string)
    requires w in words
    requires Longest(words) <= MaxSize - 2
    ensures |w| + 2 <= GridSize(words)
  {
  }

  /** The list the game ships with (ten words, the longest of sixteen
      letters) sizes its grid at the upper clamp. */
  const DefaultWords: seq<string> := [
    "ROVSYSTEMS", "UMBILICAL", "MOBILEROBOTICS", "CLAMPCONNECTOR",
    "SUBSEAINSPECTION", "ROTATORVALVE", "CNAVANTENNA", "WELLINTERVENTION",
    "OCEANEVOLUTION", "PIPELINEREPAIR"
  ]

  lemma DefaultGridSize()
    ensures Longest(DefaultWords) == 16
    ensures GridSize(DefaultWords) == MaxSize
  {
    assert DefaultWords[4] in DefaultWords && |DefaultWords[4]| == 16;
    forall w | w in DefaultWords ensures |w| <= 16 { }
    CeilSqrtIs(20, 5);
  }

  /** A list of ten words whose longest has ten letters gets a 15-cell grid:
      the word-count term ceil(sqrt(20)) + 10 wins over 12 and 10 + 2. */
  lemma TenWordsOfTenLetters(words: seq<string>)
    requires |words| == 10
    requires Longest(words) == 10
    ensures GridSize(words) == 15
  {
    CeilSqrtIs(20, 5);
  }
}
