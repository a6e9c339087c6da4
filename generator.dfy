/** One attempt of `generateQuestion`: pick a trending article, black its title out of
    its summary, pick one of its content categories and draw three wrong answers from
    that category. The three remote lookups are inputs; an attempt that would throw
    returns the reason instead (the source then starts over, which is not modelled). */
module Generator {
  import opened Wrappers
  import opened Text
  import opened Wiki
  import opened Redaction
  import opened Helpers

  /** What the page-summary endpoint returns and the game reads. */
  datatype Summary = Summary(title: string, extract: string)

  /** The three lookups, keyed by the text interpolated into the request. `None` means the
      request failed or its JSON did not have the expected shape. */
  datatype WikiApi = WikiApi(
    summary: string -> Option<Summary>,
    categories: string -> Option<seq<CategoryRef>>,
    members: string -> Option<seq<MemberRef>>)

  datatype Question = Question(clue: string, answer: string, options: seq<string>)

  /** Why an attempt was abandoned. */
  datatype AttemptError =
    | SummaryUnavailable
    | TitleNotInExtract
    | CategoriesUnavailable
    | MembersUnavailable
    | NotEnoughFalseOptions

  /** How a possibly-`undefined` pick reads once interpolated into a request: the picked
      text itself, or the word `undefined` when nothing was picked. */
  function Interpolated(pick: Option<string>): (r: string)
    ensures pick.Some? ==> r == pick.value
    ensures pick.None? ==> r == "undefined"
  {
    match pick
    case Some(s) => s
    case None => "undefined"
  }

  /** `key` is what `randomItem(pool)` can interpolate into a request. */
  ghost predicate PickedFrom(pool: seq<string>, key: string)
  {
    if pool == [] then key == "undefined" else key in pool
  }

  /** Whatever `randomItem(pool)` returns, interpolating it gives a key picked from the
      pool: one of its titles, or the word `undefined` exactly when the pool is empty. */
  lemma InterpolatedPick(pool: seq<string>, pick: Option<string>)
    requires pick.None? <==> |pool| == 0
    requires pick.Some? ==> pick.value in pool
    ensures PickedFrom(pool, Interpolated(pick))
  {
  }

  /** The promises every produced question keeps: four options with the answer among them
      exactly once, and a clue with at least one marker. */
  predicate WellFormed(q: Question)
  {
    && |q.options| == 4
    && multiset(q.options)[q.answer] == 1
    && Contains(q.clue, HiddenText)
  }

  /** The article `key` was picked and its summary `s` fetched. */
  ghost predicate SummaryFetched(articles: seq<string>, api: WikiApi, key: string, s: Summary)
  {
    PickedFrom(articles, key) && api.summary(key) == Some(s)
  }

  /** The article `key` was picked, its summary `s` fetched, and the clue made from it holds
      the marker: the attempt got past the check for the title in the extract. */
  ghost predicate ClueMarked(articles: seq<string>, api: WikiApi, key: string, s: Summary)
  {
    SummaryFetched(articles, api, key, s) && Contains(Redact(s.extract, s.title), HiddenText)
  }

  /** The categories of `key` were listed and `category` picked among the content ones. */
  ghost predicate CategoryPicked(api: WikiApi, key: string, category: string)
  {
    api.categories(key).Some? && PickedFrom(ArticleCategories(api.categories(key).value), category)
  }

  /** The member listing of the picked category failed. */
  ghost predicate MembersMissing(api: WikiApi, key: string)
  {
    exists category :: CategoryPicked(api, key, category) && api.members(category).None?
  }

  /** The picked category had fewer than three distractors for `title`. */
  ghost predicate TooFewDistractors(api: WikiApi, key: string, title: string)
  {
    exists category, members ::
      && CategoryPicked(api, key, category)
      && api.members(category) == Some(members)
      && |CategoryArticles(members, title)| < 3
  }

  /** The whole path of a successful attempt: the article `key` was picked, its summary `s`
      fetched, the clue marked, `category` picked and its `members` listed. */
  ghost predicate MembersFetched(articles: seq<string>, api: WikiApi, key: string, s: Summary,
                                 category: string, members: seq<MemberRef>)
  {
    && ClueMarked(articles, api, key, s)
    && CategoryPicked(api, key, category)
    && api.members(category) == Some(members)
  }

  /** `q` is what the attempt assembles along that path: the summary's title is the answer,
      the clue is the redacted extract, there were at least three distractors, and the
      options other than the answer are drawn from them. */
  ghost predicate BuiltFrom(q: Question, articles: seq<string>, api: WikiApi, key: string, s: Summary,
                            category: string, members: seq<MemberRef>)
  {
    && MembersFetched(articles, api, key, s, category, members)
    && q.answer == s.title
    && q.clue == Redact(s.extract, s.title)
    && |CategoryArticles(members, s.title)| >= 3
    && multiset(q.options) - multiset{q.answer} <= multiset(CategoryArticles(members, s.title))
  }

  /** `shuffleArray([...shuffleArray(falseOptions).slice(0, 3), title])`: three of the
      distractors in random order with the answer added, shuffled again. As `falseOptions`
      never holds the answer, it ends up among the four options exactly once. */
  method AssembleOptions(falseOptions: seq<string>, title: string) returns (options: seq<string>)
    requires |falseOptions| >= 3 && title !in falseOptions
    ensures |options| == 4
    ensures multiset(options)[title] == 1
    ensures multiset(options) - multiset{title} <= multiset(falseOptions)
  {
    var pool := new string[|falseOptions|](i requires 0 <= i < |falseOptions| => falseOptions[i]);
    assert pool[..] == falseOptions;
    var shuffled := ShuffleArray(pool);
    var three := shuffled[..3];
    assert shuffled[..] == three + shuffled[3..];
    assert multiset(three) <= multiset(falseOptions);
    assert multiset(three)[title] == 0;

    var withAnswer := three + [title];
    var choices := new string[4](i requires 0 <= i < 4 => withAnswer[i]);
    assert choices[..] == withAnswer;
    var final := ShuffleArray(choices);
    options := final[..];
    assert multiset(options) == multiset(three) + multiset{title};
    assert multiset(options) - multiset{title} == multiset(three);
  }

  /** The article picked for a question, its summary and the clue made from it. */
  datatype Pick = Pick(key: string, summary: Summary, clue: string)

  /** The category picked for the wrong answers, its members and the distractors among them. */
  datatype Draw = Draw(category: string, members: seq<MemberRef>, falseOptions: seq<string>)

  /** The first steps of an attempt: pick an article from the pool, fetch its summary and
      black its title out of the extract; the attempt is abandoned when no marker results. */
  method PickClue(articles: seq<string>, api: WikiApi) returns (r: Result<Pick, AttemptError>)
    ensures r.Success? ==> SummaryFetched(articles, api, r.value.key, r.value.summary)
    ensures r.Success? ==> r.value.clue == Redact(r.value.summary.extract, r.value.summary.title)
    ensures r.Success? ==> Contains(r.value.clue, HiddenText)
    ensures r.Success? && |r.value.summary.title| > 0 && Block !in r.value.summary.title ==>
      !ContainsIgnoringCase(r.value.clue, r.value.summary.title)
    ensures r.Failure? ==> r.error == SummaryUnavailable || r.error == TitleNotInExtract
    ensures r == Failure(SummaryUnavailable) ==>
      exists key :: PickedFrom(articles, key) && api.summary(key).None?
    ensures r == Failure(TitleNotInExtract) ==>
      exists key, s :: SummaryFetched(articles, api, key, s) && !Contains(Redact(s.extract, s.title), HiddenText)
  {
    var answer := RandomItem(articles);
    var key := Interpolated(answer);
    InterpolatedPick(articles, answer);
    var fetched := api.summary(key);
    if fetched.None? {
      return Failure(SummaryUnavailable);
    }
    var s := fetched.value;
    assert SummaryFetched(articles, api, key, s);
    var clue := Redact(s.extract, s.title);
    if !Contains(clue, HiddenText) {
      return Failure(TitleNotInExtract);
    }
    if |s.title| > 0 && Block !in s.title {
      forall i: nat ensures !MatchesAt(clue, s.title, i) {
        RedactHidesTitle(s.extract, s.title, i);
      }
    }
    r := Success(Pick(key, s, clue));
  }

  /** The middle steps of an attempt: list the categories of the article `key`, pick one of
      the content categories, list its members and keep the distractors for `title`; the
      attempt is abandoned when fewer than three remain. */
  method DrawFalseOptions(key: string, title: string, api: WikiApi) returns (r: Result<Draw, AttemptError>)
    ensures r.Success? ==>
      && CategoryPicked(api, key, r.value.category)
      && api.members(r.value.category) == Some(r.value.members)
      && r.value.falseOptions == CategoryArticles(r.value.members, title)
      && |r.value.falseOptions| >= 3
    ensures r.Failure? ==>
      r.error == CategoriesUnavailable || r.error == MembersUnavailable || r.error == NotEnoughFalseOptions
    ensures r == Failure(CategoriesUnavailable) ==> api.categories(key).None?
    ensures r == Failure(MembersUnavailable) ==> MembersMissing(api, key)
    ensures r == Failure(NotEnoughFalseOptions) ==> TooFewDistractors(api, key, title)
  {
    var listing := api.categories(key);
    if listing.None? {
      return Failure(CategoriesUnavailable);
    }
    var categories := ArticleCategories(listing.value);
    var chosen := RandomItem(categories);
    var category := Interpolated(chosen);
    InterpolatedPick(categories, chosen);
    assert CategoryPicked(api, key, category);
    var listed := api.members(category);
    if listed.None? {
      return Failure(MembersUnavailable);
    }
    var falseOptions := CategoryArticles(listed.value, title);
    if |falseOptions| < 3 {
      return Failure(NotEnoughFalseOptions);
    }
    r := Success(Draw(category, listed.value, falseOptions));
  }

  /** What one attempt of `generateQuestion` over the pool `articles` may end with: a
      well-formed question that hides its answer and is built along one path through the
      lookups, or the error of the step that failed, together with the path that led to it. */
  ghost predicate Attempt(articles: seq<string>, api: WikiApi, r: Result<Question, AttemptError>)
  {
    && (r.Success? ==> WellFormed(r.value))
    && (r.Success? && |r.value.answer| > 0 && Block !in r.value.answer ==>
          !ContainsIgnoringCase(r.value.clue, r.value.answer))
    && (r.Success? ==>
          exists key, s, category, members :: BuiltFrom(r.value, articles, api, key, s, category, members))
    && (r == Failure(SummaryUnavailable) ==>
          exists key :: PickedFrom(articles, key) && api.summary(key).None?)
    && (r == Failure(TitleNotInExtract) ==>
          exists key, s :: SummaryFetched(articles, api, key, s) && !Contains(Redact(s.extract, s.title), HiddenText))
    && (r == Failure(CategoriesUnavailable) ==>
          exists key, s :: ClueMarked(articles, api, key, s) && api.categories(key).None?)
    && (r == Failure(MembersUnavailable) ==>
          exists key, s :: ClueMarked(articles, api, key, s) && MembersMissing(api, key))
    && (r == Failure(NotEnoughFalseOptions) ==>
          exists key, s :: ClueMarked(articles, api, key, s) && TooFewDistractors(api, key, s.title))
  }

  /** One attempt of `generateQuestion` over the candidate pool `articles`. */
  method GenerateQuestion(articles: seq<string>, api: WikiApi) returns (r: Result<Question, AttemptError>)
    ensures Attempt(articles, api, r)
  {
    var picked := PickClue(articles, api);
    if picked.Failure? {
      return Failure(picked.error);
    }
    var key, s, clue := picked.value.key, picked.value.summary, picked.value.clue;
    var title := s.title;
    var drawn := DrawFalseOptions(key, title, api);
    if drawn.Failure? {
      assert ClueMarked(articles, api, key, s);
      return Failure(drawn.error);
    }
    var d := drawn.value;
    var options := AssembleOptions(d.falseOptions, title);
    var q := Question(clue, title, options);
    assert BuiltFrom(q, articles, api, key, s, d.category, d.members);
    r := Success(q);
  }
}
