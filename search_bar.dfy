/**
 * The search bar shared by the home page and the borrower dashboard: on
 * submit it turns the typed term and the chosen category into one query
 * string and hands it to the page.
 */
module SearchBar {

  /** The drop-down value that means "no category". */
  const AllCategories := "all"

  /** What separates the term from the category in the query. */
  const CategoryTag := " category:"

  /** `handleSearch`: the term alone for 'all', else `term category:cat`. */
  function BuildQuery(term: string, category: string): (q: string)
    ensures |q| >= |term| && q[..|term|] == term
    ensures category == AllCategories ==> q == term
    ensures category != AllCategories ==>
      |q| == |term| + 10 + |category| &&
      q[|term|..|term| + 10] == CategoryTag &&
      q[|term| + 10..] == category
  {
    if category == AllCategories then term else term + CategoryTag + category
  }

  /** The term back out of a query built for that category. */
  function TermOf(q: string, category: string): string
    requires category == AllCategories || |q| >= 10 + |category|
  {
    if category == AllCategories then q else q[..|q| - 10 - |category|]
  }

  /** The term is recovered from the query, whatever the category. */
  lemma TermRecovered(term: string, category: string)
    ensures category == AllCategories || |BuildQuery(term, category)| >= 10 + |category|
    ensures TermOf(BuildQuery(term, category), category) == term
  {
    var q := BuildQuery(term, category);
    if category != AllCategories {
      assert q[..|q| - 10 - |category|] == q[..|term|];
    }
  }

  /** Different terms with the same category never give the same query. */
  lemma BuildQueryInjective(t1: string, t2: string, category: string)
    requires BuildQuery(t1, category) == BuildQuery(t2, category)
    ensures t1 == t2
  {
    TermRecovered(t1, category);
    TermRecovered(t2, category);
  }
}
