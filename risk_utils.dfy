/** `deduplicate_categories` of app/utils/risk_utils.py. */
module RiskUtils {
  import opened Common
  import opened Models

  /** The category names of a list of category records. */
  function NamesOf(cs: seq<OwnCategory>): (names: set<string>)
    ensures forall i :: 0 <= i < |cs| ==> cs[i].categoryName in names
    ensures forall c :: c in names ==> exists i :: 0 <= i < |cs| && cs[i].categoryName == c
  {
    set i | 0 <= i < |cs| :: cs[i].categoryName
  }

  /** The set the deduplication computes: the top-level category name together with the
      names in both detail lists. */
  function CategoryUnion(r: RiskDetailsResponse): (u: set<string>)
  {
    {r.categoryName} + NamesOf(r.details.ownCategories) + NamesOf(r.details.sourceOfFundsCategories)
  }

  /** `list(s)`: the elements of a set, each once, in an order left unspecified. */
  method SetToList(s: set<string>) returns (xs: seq<string>)
    ensures NoDuplicates(xs)
    ensures forall x :: x in xs <==> x in s
  {
    xs := [];
    var rest := s;
    while rest != {}
      invariant NoDuplicates(xs)
      invariant forall x :: x in s <==> x in rest || x in xs
      invariant forall x :: x in rest ==> x !in xs
      decreases |rest|
    {
      var x :| x in rest;
      xs := xs + [x];
      rest := rest - {x};
    }
  }

  /** `deduplicate_categories`: adds the top-level name and then every name of the two
      detail lists to a set, and returns the set as a list. */
  method DeduplicateCategories(r: RiskDetailsResponse) returns (names: seq<string>)
    ensures NoDuplicates(names)
    ensures r.categoryName in names
    ensures forall o :: o in r.details.ownCategories ==> o.categoryName in names
    ensures forall o :: o in r.details.sourceOfFundsCategories ==> o.categoryName in names
    ensures forall c :: c in names ==>
              || c == r.categoryName
              || (exists o :: o in r.details.ownCategories && o.categoryName == c)
              || (exists o :: o in r.details.sourceOfFundsCategories && o.categoryName == c)
    ensures forall c :: c in names <==> c in CategoryUnion(r)
  {
    var own := r.details.ownCategories;
    var sources := r.details.sourceOfFundsCategories;
    var categories: set<string> := {};
    categories := categories + {r.categoryName};
    for i := 0 to |own|
      invariant categories == {r.categoryName} + NamesOf(own[..i])
    {
      assert own[..i + 1] == own[..i] + [own[i]];
      categories := categories + {own[i].categoryName};
    }
    assert own[..|own|] == own;
    for j := 0 to |sources|
      invariant categories == {r.categoryName} + NamesOf(own) + NamesOf(sources[..j])
    {
      assert sources[..j + 1] == sources[..j] + [sources[j]];
      categories := categories + {sources[j].categoryName};
    }
    assert sources[..|sources|] == sources;
    names := SetToList(categories);
  }
}
