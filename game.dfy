/** The game's session state and its entry points: `start` loads the candidate pool and
    the click handler keeps the score. Rendering the question into the page is not part of
    this model; each entry point returns the next generation attempt instead. */
module Game {
  import opened Wrappers
  import opened Text
  import opened Wiki
  import opened Generator

  /** The score law: a right answer adds a point, a wrong one starts the count over. A wrong
      answer is the only way to end with no points. */
  function ScoreAfter(points: nat, correct: bool): (r: nat)
    ensures r == 0 <==> !correct
    ensures correct ==> r == points + 1
  {
    if correct then points + 1 else 0
  }

  /** The score after the answers `outcomes`, given in the order they were clicked. */
  function ScoreAfterAll(points: nat, outcomes: seq<bool>): (r: nat)
    decreases |outcomes|
  {
    if outcomes == [] then points else ScoreAfterAll(ScoreAfter(points, outcomes[0]), outcomes[1..])
  }

  /** The number of right answers since the last wrong one. */
  function Streak(outcomes: seq<bool>): (r: nat)
  {
    if outcomes == [] || !outcomes[|outcomes| - 1] then 0
    else Streak(outcomes[..|outcomes| - 1]) + 1
  }

  lemma {:induction false} ScoreAfterAllAppend(points: nat, outcomes: seq<bool>, last: bool)
    ensures ScoreAfterAll(points, outcomes + [last]) == ScoreAfter(ScoreAfterAll(points, outcomes), last)
    decreases |outcomes|
  {
    if outcomes == [] {
      assert outcomes + [last] == [last];
    } else {
      assert (outcomes + [last])[1..] == outcomes[1..] + [last];
      ScoreAfterAllAppend(ScoreAfter(points, outcomes[0]), outcomes[1..], last);
    }
  }

  /** From the start of a session, the score is the length of the current run of right
      answers: every wrong answer wipes out what came before it. */
  lemma {:induction false} ScoreIsStreak(outcomes: seq<bool>)
    ensures ScoreAfterAll(0, outcomes) == Streak(outcomes)
    decreases |outcomes|
  {
    if outcomes != [] {
      var init, last := outcomes[..|outcomes| - 1], outcomes[|outcomes| - 1];
      assert outcomes == init + [last];
      ScoreIsStreak(init);
      ScoreAfterAllAppend(0, init, last);
    }
  }

  /** `String(n).padStart(2, "0")`, used for the month and the day of the ranking date: at
      least two digits, and exactly two below one hundred. */
  function TwoDigits(n: nat): (r: string)
    ensures IsDigits(r) && |r| >= 2
    ensures n < 100 ==> |r| == 2
  {
    DecimalStringRoundTrip(n);
    PadStart(DecimalString(n), 2, '0')
  }

  /** A month (1 to 9) or day (1 to 9) below ten gets a leading zero; the two digits
      read back as `n`. */
  lemma PadBelowTen(n: nat)
    requires n < 10
    ensures TwoDigits(n) == ['0', Digit(n)]
    ensures DigitsValue(TwoDigits(n)) == n
  {
    var d := DecimalString(n);
    assert d == [Digit(n)];
    assert Repeat('0', 1) == ['0'];
    assert TwoDigits(n) == ['0'] + d;
    DecimalStringRoundTrip(n);
    LeadingZero(d);
  }

  /** From ten on, the number is written as it is (two digits for every month from 10
      to 12 and day from 10 to 31); the digits read back as `n`. */
  lemma PadFromTen(n: nat)
    requires n >= 10
    ensures TwoDigits(n) == DecimalString(n)
    ensures DigitsValue(TwoDigits(n)) == n
  {
    var d := DecimalString(n);
    assert d == DecimalString(n / 10) + [Digit(n % 10)];
    DecimalStringRoundTrip(n);
  }

  /** The session record `STATE`: the running score and the candidate pool. */
  class Session {
    var points: nat
    var articles: seq<string>

    constructor ()
      ensures points == 0 && articles == []
    {
      points := 0;
      articles := [];
    }

    /** `start` once yesterday's ranking has been fetched: `None` stands for a request that
        failed or a response without a ranking, after which the game never starts and
        nothing changes. Otherwise the candidate pool is stored and the first question is
        attempted. */
    method Start(ranking: Option<seq<TopArticle>>, api: WikiApi)
      returns (first: Option<Result<Question, AttemptError>>)
      modifies this
      ensures first.Some? <==> ranking.Some?
      ensures articles == if ranking.Some? then CandidatePool(ranking.value) else old(articles)
      ensures points == old(points)
      ensures first.Some? && first.value.Success? ==> WellFormed(first.value.value)
      ensures first.Some? ==> Attempt(articles, api, first.value)
    {
      if ranking.None? {
        return None;
      }
      articles := CandidatePool(ranking.value);
      var attempt := GenerateQuestion(articles, api);
      first := Some(attempt);
    }

    /** The click handler of the button showing `q.options[choice]`: the score goes up by
        one for the answer and back to zero for any other option; the pool is untouched,
        and the next question is attempted either way. */
    method Answer(q: Question, choice: nat, api: WikiApi)
      returns (correct: bool, next: Result<Question, AttemptError>)
      requires choice < |q.options|
      modifies this
      ensures correct <==> q.options[choice] == q.answer
      ensures points == ScoreAfter(old(points), correct)
      ensures correct ==> points == old(points) + 1
      ensures !correct ==> points == 0
      ensures articles == old(articles)
      ensures next.Success? ==> WellFormed(next.value)
      ensures Attempt(articles, api, next)
    {
      correct := q.options[choice] == q.answer;
      if correct {
        points := points + 1;
      } else {
        points := 0;
      }
      next := GenerateQuestion(articles, api);
    }
  }
}
