/**
 * The protein-goal calculator of src/contexts/AuthContext.jsx
 * (`calculateProteinGoal`): the Mifflin–St Jeor basal metabolic rate, a
 * moderate-activity multiplier of 1.55, a quarter of the calories from
 * protein at 4 kcal per gram, a 20% boost from age 50, rounding, and a
 * floor of 60 grams. Missing inputs give the fallback of 120 grams.
 *
 * JavaScript numbers are modelled as `real`; the age in whole years is an
 * input (the source computes it with date-fns from the date of birth).
 */
module ProteinGoal {
  import opened Options

  /** The goal used when the date of birth, height or weight is missing. */
  const FallbackGoal: int := 120

  /** No goal is ever below this many grams. */
  const MinimumGoal: int := 60

  /** The age from which the goal is boosted. */
  const SeniorAge: int := 50

  /** JavaScript truthiness of an optional string: present and not empty. */
  predicate TruthyText(s: Option<string>) { s.Some? && s.value != "" }

  /** JavaScript truthiness of an optional number: present and not zero. */
  predicate TruthyNumber(x: Option<real>) { x.Some? && x.value != 0.0 }

  /** The inputs the calculator needs are all present. */
  predicate HasInputs(dob: Option<string>, heightCm: Option<real>, weightKg: Option<real>) {
    TruthyText(dob) && TruthyNumber(heightCm) && TruthyNumber(weightKg)
  }

  /** The sex term of the equation: -161 for exactly "Female", +5 for anything else. */
  function SexOffset(gender: Option<string>): (s: int)
    ensures s == -161 <==> gender == Some("Female")
    ensures s == 5 <==> gender != Some("Female")
  {
    if gender == Some("Female") then -161 else 5
  }

  /** Basal metabolic rate in kcal per day. */
  function Bmr(weightKg: real, heightCm: real, age: int, gender: Option<string>): real {
    10.0 * weightKg + 6.25 * heightCm - 5.0 * (age as real) + (SexOffset(gender) as real)
  }

  /** Grams of protein before rounding: a quarter of 1.55 times the BMR, at 4 kcal per gram, boosted from age 50. */
  function DailyGrams(bmr: real, age: int): real {
    var grams := (bmr * 1.55 * 0.25) / 4.0;
    if age >= SeniorAge then grams * 1.2 else grams
  }

  /** `Math.round`: the nearest integer, halves rounded up. */
  function Round(x: real): (n: int)
    ensures (n as real) - 0.5 <= x < (n as real) + 0.5
  {
    (x + 0.5).Floor
  }

  function RealMax(a: real, b: real): real { if a < b then b else a }

  /** The daily protein goal in grams. */
  function CalculateProteinGoal(dob: Option<string>, heightCm: Option<real>, weightKg: Option<real>,
                                gender: Option<string>, age: int): (g: int)
    ensures g >= MinimumGoal
    ensures !HasInputs(dob, heightCm, weightKg) ==> g == FallbackGoal
    ensures HasInputs(dob, heightCm, weightKg) ==>
      var q := DailyGrams(Bmr(weightKg.value, heightCm.value, age, gender), age);
      (g as real) - 0.5 <= RealMax(q, MinimumGoal as real) < (g as real) + 0.5
  {
    if !HasInputs(dob, heightCm, weightKg) then FallbackGoal
    else
      var q := DailyGrams(Bmr(weightKg.value, heightCm.value, age, gender), age);
      var r := Round(q);
      if r < MinimumGoal then MinimumGoal else r
  }

  // ----- Properties -------------------------------------------------------

  /** Rounding never reverses an order. */
  lemma RoundMonotone(x: real, y: real)
    requires x <= y
    ensures Round(x) <= Round(y)
  {
    var m, n := Round(x), Round(y);
    assert (m as real) - 0.5 <= x <= y < (n as real) + 0.5;
  }

  /** The unrounded amount grows with the BMR, boosted or not. */
  lemma DailyGramsMonotone(b1: real, b2: real, age: int)
    requires b1 <= b2
    ensures DailyGrams(b1, age) <= DailyGrams(b2, age)
  {
  }

  /** The goal depends on the inputs only through the unrounded amount. */
  lemma GoalOfGrams(dob: Option<string>, h: real, w: real, gender: Option<string>, age: int)
    requires HasInputs(dob, Some(h), Some(w))
    ensures CalculateProteinGoal(dob, Some(h), Some(w), gender, age)
         == (var r := Round(DailyGrams(Bmr(w, h, age, gender), age)); if r < MinimumGoal then MinimumGoal else r)
  {
  }

  lemma GoalMonotoneInGrams(dob: Option<string>, h1: real, w1: real, g1: Option<string>,
                            h2: real, w2: real, g2: Option<string>, age: int)
    requires HasInputs(dob, Some(h1), Some(w1)) && HasInputs(dob, Some(h2), Some(w2))
    requires Bmr(w1, h1, age, g1) <= Bmr(w2, h2, age, g2)
    ensures CalculateProteinGoal(dob, Some(h1), Some(w1), g1, age) <= CalculateProteinGoal(dob, Some(h2), Some(w2), g2, age)
  {
    DailyGramsMonotone(Bmr(w1, h1, age, g1), Bmr(w2, h2, age, g2), age);
    RoundMonotone(DailyGrams(Bmr(w1, h1, age, g1), age), DailyGrams(Bmr(w2, h2, age, g2), age));
    GoalOfGrams(dob, h1, w1, g1, age);
    GoalOfGrams(dob, h2, w2, g2, age);
  }

  /** For a fixed age and sex, a heavier user never gets a smaller goal. */
  lemma GoalMonotoneInWeight(dob: Option<string>, h: real, w1: real, w2: real, gender: Option<string>, age: int)
    requires HasInputs(dob, Some(h), Some(w1)) && HasInputs(dob, Some(h), Some(w2))
    requires w1 <= w2
    ensures CalculateProteinGoal(dob, Some(h), Some(w1), gender, age) <= CalculateProteinGoal(dob, Some(h), Some(w2), gender, age)
  {
    GoalMonotoneInGrams(dob, h, w1, gender, h, w2, gender, age);
  }

  /** For a fixed age and sex, a taller user never gets a smaller goal. */
  lemma GoalMonotoneInHeight(dob: Option<string>, h1: real, h2: real, w: real, gender: Option<string>, age: int)
    requires HasInputs(dob, Some(h1), Some(w)) && HasInputs(dob, Some(h2), Some(w))
    requires h1 <= h2
    ensures CalculateProteinGoal(dob, Some(h1), Some(w), gender, age) <= CalculateProteinGoal(dob, Some(h2), Some(w), gender, age)
  {
    GoalMonotoneInGrams(dob, h1, w, gender, h2, w, gender, age);
  }

  /** All else equal, the goal for "Female" is never above the goal for any other value. */
  lemma FemaleGoalNotAbove(dob: Option<string>, h: Option<real>, w: Option<real>, gender: Option<string>, age: int)
    ensures CalculateProteinGoal(dob, h, w, Some("Female"), age) <= CalculateProteinGoal(dob, h, w, gender, age)
  {
    if HasInputs(dob, h, w) {
      GoalMonotoneInGrams(dob, h.value, w.value, Some("Female"), h.value, w.value, gender, age);
    }
  }

  /** The boost starts at exactly 50: an age of 50 is boosted by a fifth and an age of 49 is not. */
  lemma AgeBoostBoundary(bmr: real)
    ensures DailyGrams(bmr, 50) == 1.2 * DailyGrams(bmr, 49)
    ensures DailyGrams(bmr, 49) == bmr * 0.096875
  {
  }

  /** 70 kg, 175 cm, 25 years, not "Female": a BMR of 1673.75 kcal and a goal of 162 g. */
  lemma WorkedExample(dob: string)
    requires dob != ""
    ensures Bmr(70.0, 175.0, 25, Some("Male")) == 1673.75
    ensures CalculateProteinGoal(Some(dob), Some(175.0), Some(70.0), Some("Male"), 25) == 162
  {
    assert DailyGrams(1673.75, 25) == 162.14453125;
    assert Round(162.14453125) == 162;
  }
}
