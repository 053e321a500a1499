/** Difficulty scoring of the expert engine: the technique weight table, the
    (partly stubbed) technique analysis, the clue bonus and the rating table. */
module ExpertDifficulty {
  import opened Grids
  import opened ExpertSolver

  /** The solving techniques the weight table knows. */
  datatype Technique =
    | NakedSingle | HiddenSingle | NakedPair | HiddenPair | NakedTriple | HiddenTriple
    | NakedQuad | HiddenQuad | PointingPair | BoxLineReduction | XWing | Swordfish
    | Jellyfish | XyWing | XyzWing | UniqueRectangle | Coloring | ForcedChain | AlsXz
    | NiceLoop | Guessing

  /** The `techniqueScores` table. */
  function TechniqueScore(t: Technique): nat {
    match t
    case NakedSingle => 1
    case HiddenSingle => 2
    case NakedPair => 3
    case HiddenPair => 4
    case NakedTriple => 5
    case HiddenTriple => 6
    case NakedQuad => 7
    case HiddenQuad => 8
    case PointingPair => 5
    case BoxLineReduction => 5
    case XWing => 10
    case Swordfish => 15
    case Jellyfish => 20
    case XyWing => 12
    case XyzWing => 15
    case UniqueRectangle => 18
    case Coloring => 20
    case ForcedChain => 25
    case AlsXz => 30
    case NiceLoop => 35
    case Guessing => 50
  }

  /** Guessing is the heaviest technique in the table and a naked single the lightest. */
  lemma ScoreTableRange(t: Technique)
    ensures 1 <= TechniqueScore(t) <= 50
    ensures TechniqueScore(t) == 1 <==> t == NakedSingle
    ensures TechniqueScore(t) == 50 <==> t == Guessing
  {
  }

  /** One key of the techniques object with its count, in insertion order. */
  type TechniqueCount = (Technique, nat)

  /** What `analyzeSolvingTechniques` records, given whether some naked single
      exists and the clue count: the hidden-single check is a stub that always
      succeeds, and X-Wing and guessing are clue-count thresholds. */
  function TechniquesFound(naked: bool, clues: int): seq<TechniqueCount> {
    (if naked then [(NakedSingle, 1)] else []) + [(HiddenSingle, 1)] +
    (if clues < 25 then [(XWing, 1)] else []) + (if clues < 20 then [(Guessing, 1)] else [])
  }

  /** The techniques object has every count 1 and no repeated key. */
  lemma TechniquesFoundShape(naked: bool, clues: int)
    ensures forall i :: 0 <= i < |TechniquesFound(naked, clues)| ==> TechniquesFound(naked, clues)[i].1 == 1
    ensures forall i, j :: 0 <= i < j < |TechniquesFound(naked, clues)| ==>
      TechniquesFound(naked, clues)[i].0 != TechniquesFound(naked, clues)[j].0
  {
    var t := TechniquesFound(naked, clues);
    var keys := seq(|t|, i requires 0 <= i < |t| => Rank4(t[i].0));
    assert forall i :: 0 <= i < |t| - 1 ==> keys[i] < keys[i + 1];
    forall i, j | 0 <= i < j < |t|
      ensures t[i].0 != t[j].0
    {
      AscendingIsStrict(keys, i, j);
    }
  }

  /** The order the analysis records the four techniques it knows in. */
  function Rank4(t: Technique): int {
    match t
    case NakedSingle => 0
    case HiddenSingle => 1
    case XWing => 2
    case Guessing => 3
    case _ => 4
  }

  lemma {:induction false} AscendingIsStrict(keys: seq<int>, i: int, j: int)
    requires forall k :: 0 <= k < |keys| - 1 ==> keys[k] < keys[k + 1]
    requires 0 <= i < j < |keys|
    ensures keys[i] < keys[j]
    decreases j - i
  {
    if j > i + 1 {
      AscendingIsStrict(keys, i + 1, j);
    }
  }

  /** The techniques object records a naked single exactly when one exists,
      the hidden single always, X-Wing exactly below 25 clues, guessing
      exactly below 20, and nothing else. */
  lemma TechniquesFoundKeys(naked: bool, clues: int)
    ensures (NakedSingle, 1) in TechniquesFound(naked, clues) <==> naked
    ensures (HiddenSingle, 1) in TechniquesFound(naked, clues)
    ensures (XWing, 1) in TechniquesFound(naked, clues) <==> clues < 25
    ensures (Guessing, 1) in TechniquesFound(naked, clues) <==> clues < 20
    ensures forall e :: e in TechniquesFound(naked, clues) ==> e.0 in {NakedSingle, HiddenSingle, XWing, Guessing}
  {
    var a := if naked then [(NakedSingle, 1)] else [];
    var x := if clues < 25 then [(XWing, 1)] else [];
    var g := if clues < 20 then [(Guessing, 1)] else [];
    var t := a + [(HiddenSingle, 1)] + x + g;
    assert t == TechniquesFound(naked, clues);
    assert forall e :: e in t <==> e in a || e == (HiddenSingle, 1) || e in x || e in g;
  }

  /** The sum of weight times count over the entries. */
  function WeightedSum(ts: seq<TechniqueCount>): nat {
    if ts == [] then 0 else WeightedSum(ts[..|ts| - 1]) + TechniqueScore(ts[|ts| - 1].0) * ts[|ts| - 1].1
  }

  /** The extra points for few clues. */
  function ClueBonus(clues: int): (bonus: nat)
    ensures bonus in {0, 20, 30, 50}
  {
    if clues <= 20 then 50 else if clues <= 23 then 30 else if clues <= 26 then 20 else 0
  }

  /** The score `calculateDifficultyScore` gives a puzzle with the given
      naked-single status and clue count. */
  function Score(naked: bool, clues: int): nat {
    WeightedSum(TechniquesFound(naked, clues)) + ClueBonus(clues)
  }

  /** The weighted sum of a list is the same in either order of two blocks. */
  lemma {:induction false} WeightedSumAppend(a: seq<TechniqueCount>, b: seq<TechniqueCount>)
    ensures WeightedSum(a + b) == WeightedSum(a) + WeightedSum(b)
    decreases |b|
  {
    if b == [] {
      assert a + b == a;
    } else {
      var b' := b[..|b| - 1];
      assert (a + b)[..|a + b| - 1] == a + b';
      WeightedSumAppend(a, b');
    }
  }

  /** The techniques part of the score, block by block. */
  lemma TechniqueSum(naked: bool, clues: int)
    ensures WeightedSum(TechniquesFound(naked, clues)) ==
      (if naked then 1 else 0) + 2 + (if clues < 25 then 10 else 0) + (if clues < 20 then 50 else 0)
  {
    var a := if naked then [(NakedSingle, 1)] else [];
    var b := [(HiddenSingle, 1)];
    var x := if clues < 25 then [(XWing, 1)] else [];
    var g := if clues < 20 then [(Guessing, 1)] else [];
    WeightedSumAppend(a, b);
    WeightedSumAppend(a + b, x);
    WeightedSumAppend(a + b + x, g);
    assert WeightedSum(b) == 2 by {
      assert b[..0] == [];
    }
    assert WeightedSum(a) == if naked then 1 else 0 by {
      if naked {
        assert a[..0] == [];
      }
    }
    assert WeightedSum(x) == if clues < 25 then 10 else 0 by {
      if clues < 25 {
        assert x[..0] == [];
      }
    }
    assert WeightedSum(g) == if clues < 20 then 50 else 0 by {
      if clues < 20 {
        assert g[..0] == [];
      }
    }
  }

  /** Every expert score lies between 2 (only the hidden-single stub) and
      113 (every technique and the largest bonus). */
  lemma ScoreBounds(naked: bool, clues: int)
    ensures 2 <= Score(naked, clues) <= 113
    ensures Score(naked, clues) == 113 <==> naked && clues < 20
  {
    TechniqueSum(naked, clues);
  }

  /** Fewer clues never lower the score. */
  lemma ScoreAntitone(naked: bool, fewer: int, more: int)
    requires fewer <= more
    ensures Score(naked, fewer) >= Score(naked, more)
  {
    TechniqueSum(naked, fewer);
    TechniqueSum(naked, more);
  }

  /** A naked single adds exactly its weight of one. */
  lemma NakedSingleAddsOne(clues: int)
    ensures Score(true, clues) == Score(false, clues) + 1
  {
    TechniqueSum(true, clues);
    TechniqueSum(false, clues);
  }

  // ---------------------------------------------------------------- rating

  datatype Rating = Easy | Medium | Hard | Expert | Fiendish | Diabolical

  /** The position of a rating in the table, from easiest. */
  function Rank(r: Rating): nat {
    match r
    case Easy => 0
    case Medium => 1
    case Hard => 2
    case Expert => 3
    case Fiendish => 4
    case Diabolical => 5
  }

  /** The string `getRating` returns. */
  function RatingName(r: Rating): string {
    match r
    case Easy => "Easy"
    case Medium => "Medium"
    case Hard => "Hard"
    case Expert => "Expert"
    case Fiendish => "Fiendish"
    case Diabolical => "Diabolical"
  }

  /** The lowest score that earns each rating. */
  function Threshold(r: Rating): int {
    match r
    case Easy => 0
    case Medium => 40
    case Hard => 70
    case Expert => 100
    case Fiendish => 150
    case Diabolical => 200
  }

  /** `getRating`: the highest rating whose threshold the score reaches
      (`Easy` for any score below 40, negative ones included). */
  function GetRating(score: int): (r: Rating)
    ensures score >= Threshold(r) || r == Easy
    ensures forall q: Rating :: Rank(q) > Rank(r) ==> score < Threshold(q)
  {
    if score >= 200 then Diabolical
    else if score >= 150 then Fiendish
    else if score >= 100 then Expert
    else if score >= 70 then Hard
    else if score >= 40 then Medium
    else Easy
  }

  lemma RatingNamesDistinct(a: Rating, b: Rating)
    ensures RatingName(a) == RatingName(b) <==> a == b
  {
    if a != b {
      assert RatingName(a)[0] != RatingName(b)[0] || |RatingName(a)| != |RatingName(b)|;
    }
  }

  /** A higher score never gets a lower rating. */
  lemma RatingMonotone(lo: int, hi: int)
    requires lo <= hi
    ensures Rank(GetRating(lo)) <= Rank(GetRating(hi))
  {
  }

  /** The boundary values of the table. */
  lemma RatingExamples()
    ensures GetRating(200) == Diabolical
    ensures GetRating(199) == Fiendish
    ensures GetRating(150) == Fiendish && GetRating(149) == Expert
    ensures GetRating(100) == Expert && GetRating(99) == Hard
    ensures GetRating(70) == Hard && GetRating(69) == Medium
    ensures GetRating(40) == Medium && GetRating(39) == Easy
    ensures GetRating(0) == Easy
  {
  }

  /** What an expert score rates, by clue count: the score can never reach
      "Hard", "Fiendish" or "Diabolical"; below 20 clues it is "Expert", from
      20 to 23 "Medium", and "Easy" from 24 on. */
  lemma ExpertRatingByClues(naked: bool, clues: int)
    ensures GetRating(Score(naked, clues)) == Expert <==> clues < 20
    ensures GetRating(Score(naked, clues)) == Medium <==> 20 <= clues <= 23
    ensures GetRating(Score(naked, clues)) == Easy <==> clues >= 24
  {
    TechniqueSum(naked, clues);
  }

  // ---------------------------------------------------------------- analysis

  /** `analyzeSolvingTechniques`, on a private copy of the puzzle. */
  method AnalyzeSolvingTechniques(puzzle: array2<int>) returns (techniques: seq<TechniqueCount>)
    requires Is9x9(puzzle)
    ensures techniques == TechniquesFound(!NoNakedSingle(Snapshot(puzzle)), Clues(Snapshot(puzzle)))
  {
    var copy := FromRows(Snapshot(puzzle));
    var naked := HasNakedSingles(copy);
    var hidden := [(HiddenSingle, 1)];
    var clues := CountClues(copy);
    techniques := (if naked then [(NakedSingle, 1)] else []) + hidden;
    if clues < 25 {
      techniques := techniques + [(XWing, 1)];
    }
    if clues < 20 {
      techniques := techniques + [(Guessing, 1)];
    }
  }

  /** `calculateDifficultyScore`: the weighted sum over the techniques found
      plus the clue bonus. */
  method CalculateDifficultyScore(puzzle: array2<int>) returns (score: nat)
    requires Is9x9(puzzle)
    ensures score == Score(!NoNakedSingle(Snapshot(puzzle)), Clues(Snapshot(puzzle)))
  {
    var techniques := AnalyzeSolvingTechniques(puzzle);
    score := 0;
    for i := 0 to |techniques|
      invariant score == WeightedSum(techniques[..i])
    {
      assert techniques[..i + 1][..i] == techniques[..i];
      score := score + TechniqueScore(techniques[i].0) * techniques[i].1;
    }
    assert techniques[..|techniques|] == techniques;
    var clueCount := CountClues(puzzle);
    if clueCount <= 20 {
      score := score + 50;
    } else if clueCount <= 23 {
      score := score + 30;
    } else if clueCount <= 26 {
      score := score + 20;
    }
  }

  /** The object `analyzeDifficulty` returns. */
  datatype DifficultyReport = DifficultyReport(
    clueCount: nat, difficultyScore: nat, techniquesRequired: seq<TechniqueCount>, rating: Rating)

  /** `analyzeDifficulty`: the clue count, score, techniques and rating of a puzzle. */
  method AnalyzeDifficulty(puzzle: array2<int>) returns (report: DifficultyReport)
    requires Is9x9(puzzle)
    ensures report.clueCount == Clues(Snapshot(puzzle)) <= 81
    ensures report.difficultyScore == Score(!NoNakedSingle(Snapshot(puzzle)), Clues(Snapshot(puzzle)))
    ensures report.techniquesRequired == TechniquesFound(!NoNakedSingle(Snapshot(puzzle)), Clues(Snapshot(puzzle)))
    ensures report.rating == GetRating(report.difficultyScore)
    ensures report.rating in {Easy, Medium, Expert}
  {
    var clueCount := CountClues(puzzle);
    var score := CalculateDifficultyScore(puzzle);
    var techniques := AnalyzeSolvingTechniques(puzzle);
    ExpertRatingByClues(!NoNakedSingle(Snapshot(puzzle)), Clues(Snapshot(puzzle)));
    report := DifficultyReport(clueCount, score, techniques, GetRating(score));
  }
}
