/** The three title filters of the game, applied to what the Wikipedia APIs return. The
    responses are plain inputs here: each record keeps only the field the game reads. */
module Wiki {
  import opened Text
  import opened Seqs

  /** An entry of an article's category listing (`{ title }`). */
  datatype CategoryRef = CategoryRef(title: string)

  /** An entry of a category's member listing (`{ title }`). */
  datatype MemberRef = MemberRef(title: string)

  /** An entry of the most-viewed ranking (`{ article }`). */
  datatype TopArticle = TopArticle(article: string)

  /** Categories whose name contains this word are administrative, not about content. */
  const MetaWord: string := "Wikipedia"

  /** Titles containing this separator belong to a namespace (portals, help pages, ...). */
  const NamespaceSeparator: string := ":"

  function CategoryTitle(c: CategoryRef): (r: string) { c.title }

  function MemberTitle(m: MemberRef): (r: string) { m.title }

  function ArticleName(a: TopArticle): (r: string) { a.article }

  predicate IsContentCategory(name: string) { !Contains(name, MetaWord) }

  predicate IsPlainTitle(title: string) { !Contains(title, NamespaceSeparator) }

  /** A title that may be offered as a wrong answer next to `exclude`. */
  function IsDistractor(exclude: string): (keep: string -> bool)
  {
    (title: string) => IsPlainTitle(title) && title != exclude
  }

  function IsDistractorMember(exclude: string): (keep: MemberRef -> bool)
  {
    (m: MemberRef) => IsPlainTitle(m.title) && m.title != exclude
  }

  function IsPlainTopArticle(a: TopArticle): (r: bool) { IsPlainTitle(a.article) }

  /** `getArticleCategories` once the listing is fetched: the category titles, without the
      administrative ones. */
  function ArticleCategories(categories: seq<CategoryRef>): (r: seq<string>)
    ensures |r| <= |categories|
    ensures forall i :: 0 <= i < |r| ==> !Contains(r[i], MetaWord)
  {
    Filter(MapSeq(categories, CategoryTitle), IsContentCategory)
  }

  /** `getCategoryArticles(category, exclude)` once the member listing is fetched: the member
      titles that are neither namespaced nor `exclude`. */
  function CategoryArticles(members: seq<MemberRef>, exclude: string): (r: seq<string>)
    ensures |r| <= |members|
    ensures forall i :: 0 <= i < |r| ==> !Contains(r[i], NamespaceSeparator) && r[i] != exclude
  {
    MapSeq(Filter(members, IsDistractorMember(exclude)), MemberTitle)
  }

  /** The candidate pool `start` stores: the titles of the most-viewed articles, without the
      namespaced ones. */
  function CandidatePool(top: seq<TopArticle>): (r: seq<string>)
    ensures |r| <= |top|
    ensures forall i :: 0 <= i < |r| ==> !Contains(r[i], NamespaceSeparator)
  {
    MapSeq(Filter(top, IsPlainTopArticle), ArticleName)
  }

  /** The kept categories are exactly the non-administrative category titles, each with its
      multiplicity, in their original relative order. */
  lemma ArticleCategoriesExact(categories: seq<CategoryRef>, name: string)
    ensures IsSubsequence(ArticleCategories(categories), MapSeq(categories, CategoryTitle))
    ensures multiset(ArticleCategories(categories))[name] ==
            if Contains(name, MetaWord) then 0 else multiset(MapSeq(categories, CategoryTitle))[name]
  {
    var titles := MapSeq(categories, CategoryTitle);
    FilterIsSubsequence(titles, IsContentCategory);
    FilterCount(titles, IsContentCategory, name);
  }

  /** The member filter runs before the titles are taken; it is the same as taking the
      titles first and filtering them. */
  lemma CategoryArticlesAsTitleFilter(members: seq<MemberRef>, exclude: string)
    ensures CategoryArticles(members, exclude) ==
            Filter(MapSeq(members, MemberTitle), IsDistractor(exclude))
  {
    MapOfFilter(members, MemberTitle, IsDistractorMember(exclude), IsDistractor(exclude));
  }

  /** The distractor candidates are exactly the member titles that are neither namespaced
      nor `exclude`, each with its multiplicity, in their original relative order. */
  lemma CategoryArticlesExact(members: seq<MemberRef>, exclude: string, title: string)
    ensures IsSubsequence(CategoryArticles(members, exclude), MapSeq(members, MemberTitle))
    ensures multiset(CategoryArticles(members, exclude))[title] ==
            if Contains(title, NamespaceSeparator) || title == exclude then 0
            else multiset(MapSeq(members, MemberTitle))[title]
  {
    var titles := MapSeq(members, MemberTitle);
    CategoryArticlesAsTitleFilter(members, exclude);
    FilterIsSubsequence(titles, IsDistractor(exclude));
    FilterCount(titles, IsDistractor(exclude), title);
  }

  /** The candidate pool is the ranked titles without the namespaced ones, each with its
      multiplicity, in ranking order; filtering it again changes nothing. */
  lemma CandidatePoolExact(top: seq<TopArticle>, title: string)
    ensures CandidatePool(top) == Filter(MapSeq(top, ArticleName), IsPlainTitle)
    ensures IsSubsequence(CandidatePool(top), MapSeq(top, ArticleName))
    ensures multiset(CandidatePool(top))[title] ==
            if Contains(title, NamespaceSeparator) then 0 else multiset(MapSeq(top, ArticleName))[title]
    ensures Filter(CandidatePool(top), IsPlainTitle) == CandidatePool(top)
  {
    var titles := MapSeq(top, ArticleName);
    MapOfFilter(top, ArticleName, IsPlainTopArticle, IsPlainTitle);
    FilterIsSubsequence(titles, IsPlainTitle);
    FilterCount(titles, IsPlainTitle, title);
    FilterIdempotent(titles, IsPlainTitle);
  }
}
