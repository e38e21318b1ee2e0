/** calculate_priorities and priority_level of task.py: a weighted sum of
    urgency (days to the due date), importance (a fixed table by category)
    and effort (the estimate), its three tiers, and the weekly decay.
    Scores are exact reals. */
module Priority {
  import opened Text

  datatype Weights = Weights(urgency: real, importance: real, effort: real)

  const DefaultWeights: Weights := Weights(0.4, 0.4, 0.2)

  datatype Level = High | Medium | Low

  /** max(0, 10 - days_until_due), days_until_due = due - today. */
  function Urgency(due: int, today: int): (u: int)
    ensures u >= 0
  {
    var days := due - today;
    if 10 - days > 0 then 10 - days else 0
  }

  /** The urgency term is not capped at 10: a task overdue by d days scores
      10 + d, and a task due in ten days or more scores 0. */
  lemma UrgencyOverdue(due: int, today: int)
    ensures due <= today ==> Urgency(due, today) == 10 + (today - due)
    ensures due >= today + 10 ==> Urgency(due, today) == 0
    ensures today <= due <= today + 10 ==> 0 <= Urgency(due, today) <= 10
  {
  }

  /** importance_mapping.get(category.lower(), 5). */
  function Importance(category: string): (r: int)
    ensures r in {2, 4, 5, 8, 10}
  {
    var c := Lower(category);
    if c == "exam" then 10
    else if c == "assignment" then 8
    else if c == "reading" then 4
    else if c == "other" then 2
    else 5
  }

  /** The lookup ignores case: a category and its lower-cased form weigh the
      same, and the result is always one of the five table values. */
  lemma ImportanceIgnoresCase(category: string)
    ensures Importance(Lower(category)) == Importance(category)
    ensures Importance(category) in {2, 4, 5, 8, 10}
  {
    LowerIdempotent(category);
  }

  /** "study" is not in the table and falls back to 5, as does any unknown
      category. */
  lemma StudyIsDefault()
    ensures Importance("study") == 5 && Importance("Exam") == 10
  {
    assert Lower("study") == "study";
    assert Lower("Exam") == "exam";
  }

  /** The score calculate_priorities stores on a task. */
  function Score(due: int, category: string, estimated: int, today: int, w: Weights): real {
    w.urgency * Urgency(due, today) as real
    + w.importance * Importance(category) as real
    + w.effort * estimated as real
  }

  /** With the default weights a later due date never raises the score,
      and a task with a non-negative estimate scores at least 0.8 (the
      lowest importance, 2, times 0.4). */
  lemma DefaultScore(due: int, later: int, category: string, estimated: int, today: int)
    requires due <= later
    ensures Score(later, category, estimated, today, DefaultWeights) <= Score(due, category, estimated, today, DefaultWeights)
    ensures estimated >= 0 ==> Score(due, category, estimated, today, DefaultWeights) >= 0.8
  {
    assert Urgency(later, today) <= Urgency(due, today);
  }

  /** priority_level: >= 7 High, >= 4 Medium, otherwise Low. */
  function PriorityLevel(score: real): (l: Level)
    ensures l == High <==> score >= 7.0
    ensures l == Medium <==> 4.0 <= score < 7.0
    ensures l == Low <==> score < 4.0
  {
    if score >= 7.0 then High
    else if score >= 4.0 then Medium
    else Low
  }

  function Rank(l: Level): nat {
    match l
    case Low => 0
    case Medium => 1
    case High => 2
  }

  /** A higher score never gets a lower tier. */
  lemma LevelMonotone(s: real, t: real)
    requires s <= t
    ensures Rank(PriorityLevel(s)) <= Rank(PriorityLevel(t))
  {
  }

  /** max(0, base * (1 - decay * idx)): the score used on day idx of the
      weekly plan. */
  function Decayed(base: real, decay: real, idx: nat): (r: real)
    ensures r >= 0.0
  {
    var v := base * (1.0 - decay * idx as real);
    if v > 0.0 then v else 0.0
  }

  /** A base score of 10 with decay 0.1 is 7 on day 3. */
  lemma DecayExample()
    ensures Decayed(10.0, 0.1, 3) == 7.0
  {
  }

  /** While the decay factor is still positive, decaying keeps the order of
      two scores (it can only merge negative ones into a tie at 0), and it
      never raises a non-negative score. */
  lemma DecayKeepsOrder(b1: real, b2: real, decay: real, idx: nat)
    requires b2 <= b1
    requires 0.0 <= decay * idx as real <= 1.0
    ensures Decayed(b2, decay, idx) <= Decayed(b1, decay, idx)
    ensures b1 >= 0.0 ==> Decayed(b1, decay, idx) <= b1
  {
    var f := 1.0 - decay * idx as real;
    assert 0.0 <= f <= 1.0;
    MulNonNegative(b1 - b2, f);
    assert b1 * f - b2 * f == (b1 - b2) * f;
    if b1 >= 0.0 {
      MulNonNegative(b1, 1.0 - f);
      assert b1 - b1 * f == b1 * (1.0 - f);
    }
  }

  lemma MulNonNegative(x: real, y: real)
    requires x >= 0.0 && y >= 0.0
    ensures x * y >= 0.0
  {
  }
}
